/** `count_characters` and the estimate shown before a batch is confirmed. */
module Cost {
  import opened Seqs
  import opened Dicts

  /** The lengths of the values of `keys`, summed; a key that maps nothing adds 0. */
  function SumLengths(keys: seq<string>, entries: map<string, string>): nat
    decreases |keys|
  {
    if keys == [] then 0
    else
      var k := keys[|keys| - 1];
      SumLengths(keys[..|keys| - 1], entries) + (if k in entries then |entries[k]| else 0)
  }

  /** `count_characters`: the summed length of all template values. */
  function CountCharacters(t: Dict<string>): nat {
    SumLengths(t.keys, t.entries)
  }

  /** The figure in the confirmation prompts: characters times languages. */
  function CostEstimate(t: Dict<string>, languages: seq<string>): nat {
    CountCharacters(t) * |languages|
  }

  lemma {:induction false} SumLengthsUpdate(keys: seq<string>, entries: map<string, string>, k: string, v: string)
    requires Distinct(keys) && k in keys
    ensures SumLengths(keys, entries[k := v]) + (if k in entries then |entries[k]| else 0)
            == SumLengths(keys, entries) + |v|
    decreases |keys|
  {
    var init := keys[..|keys| - 1];
    var last := keys[|keys| - 1];
    if last == k {
      assert k !in init;
      SumLengthsFrame(init, entries, k, v);
    } else {
      assert k in init by { var i := IndexOf(keys, k); assert i < |keys| - 1; assert init[i] == k; }
      SumLengthsUpdate(init, entries, k, v);
    }
  }

  lemma {:induction false} SumLengthsFrame(keys: seq<string>, entries: map<string, string>, k: string, v: string)
    requires k !in keys
    ensures SumLengths(keys, entries[k := v]) == SumLengths(keys, entries)
    decreases |keys|
  {
    if keys != [] {
      SumLengthsFrame(keys[..|keys| - 1], entries, k, v);
    }
  }

  /** Setting a key changes the count by the new length minus the old one:
      a new key adds its length, an existing key swaps its length. */
  lemma CountCharactersPut(t: Dict<string>, k: string, v: string)
    requires t.Valid()
    ensures CountCharacters(t.Put(k, v)) + (if k in t.entries then |t.entries[k]| else 0)
            == CountCharacters(t) + |v|
  {
    if k in t.entries {
      SumLengthsUpdate(t.keys, t.entries, k, v);
    } else {
      SumLengthsFrame(t.keys, t.entries, k, v);
      assert (t.keys + [k])[..|t.keys|] == t.keys;
    }
  }

  /** `{"a": "hello world", "b": "hi"}` holds 11 + 2 characters, so two
      languages cost 26. */
  lemma CostExample()
    ensures CostEstimate(Dict(["a", "b"], map["a" := "hello world", "b" := "hi"]), ["fr", "de"]) == 26
  {
    var t := Dict(["a", "b"], map["a" := "hello world", "b" := "hi"]);
    assert |"hello world"| == 11 && |"hi"| == 2;
    assert t.keys[..1] == ["a"];
    assert ["a"][..0] == [];
    assert SumLengths([], t.entries) == 0;
    assert SumLengths(["a"], t.entries) == 11;
    assert SumLengths(["a", "b"], t.entries) == 13;
    assert CountCharacters(t) == 13;
  }
}
