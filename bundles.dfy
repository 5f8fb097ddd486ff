/** The key loops that build or rewrite one language bundle: the population
    of a fresh bundle, the resume-from-key merge and the cleanup rewrite. Each
    is a method over an ordered dict, proved equal to a fold over the keys
    whose meaning is stated in its contract. */
module Bundles {
  import opened Wrappers
  import opened Text
  import opened Seqs
  import opened Dicts

  /** The template document: key to source text. */
  type Template = t: Dict<string> | t.Valid() witness Dict([], map[])

  /** A language bundle; a value is `None` where cleanup wrote a JSON null. */
  type Bundle = b: Dict<Option<string>> | b.Valid() witness Dict([], map[])

  /** One provider call for a fixed target language: source text to result. */
  type Translator = string -> Option<string>

  // ---------------------------------------------------------------------------
  // translate_and_populate and the inner loop of fallback_translation

  predicate Succeeds(entries: map<string, string>, tr: Translator, k: string) {
    k in entries && tr(entries[k]).Some?
  }

  function SucceedsIn(entries: map<string, string>, tr: Translator): string -> bool {
    k => Succeeds(entries, tr, k)
  }

  /** The bundle built from `keys` in order: a key is present exactly when its
      call returned something, it holds that result, and the keys keep the
      template's order. */
  function PopulatedOver(keys: seq<string>, entries: map<string, string>, tr: Translator): (b: Bundle)
    requires Distinct(keys)
    ensures b.Valid()
    ensures forall k :: k in b.entries <==> k in keys && Succeeds(entries, tr, k)
    ensures forall k :: k in b.entries ==> k in entries && b.entries[k] == tr(entries[k])
    ensures b.keys == Filter(keys, SucceedsIn(entries, tr))
    decreases |keys|
  {
    if keys == [] then EmptyDict()
    else
      var k := keys[|keys| - 1];
      var b0 := PopulatedOver(keys[..|keys| - 1], entries, tr);
      assert k !in keys[..|keys| - 1];
      if Succeeds(entries, tr, k) then b0.Put(k, tr(entries[k])) else b0
  }

  function Populated(t: Template, tr: Translator): Bundle {
    PopulatedOver(t.keys, t.entries, tr)
  }

  lemma PopulatedStep(keys: seq<string>, entries: map<string, string>, tr: Translator, i: nat)
    requires Distinct(keys) && i < |keys|
    ensures PopulatedOver(keys[..i + 1], entries, tr)
            == var b0 := PopulatedOver(keys[..i], entries, tr);
               if Succeeds(entries, tr, keys[i]) then b0.Put(keys[i], tr(entries[keys[i]])) else b0
  {
    assert keys[..i + 1][..i] == keys[..i];
  }

  /** `translate_and_populate` / lines 98-102: a fresh dict filled key by key. */
  method Populate(t: Template, tr: Translator) returns (b: Bundle)
    ensures b == Populated(t, tr)
  {
    b := EmptyDict();
    var i := 0;
    while i < |t.keys|
      invariant 0 <= i <= |t.keys|
      invariant b == PopulatedOver(t.keys[..i], t.entries, tr)
    {
      var key := t.keys[i];
      PopulatedStep(t.keys, t.entries, tr, i);
      var translation := tr(t.entries[key]);
      if translation.Some? {
        b := b.Put(key, translation);
      }
      i := i + 1;
    }
    assert t.keys[..i] == t.keys;
  }

  /** No orphans and no invented keys: the populated bundle maps exactly the
      template keys whose call succeeded, each to its result. */
  lemma PopulatedKeys(t: Template, tr: Translator)
    ensures Populated(t, tr).entries.Keys <= t.entries.Keys
    ensures forall k :: k in Populated(t, tr).entries <==> k in t.entries && tr(t.entries[k]).Some?
    ensures forall k :: k in Populated(t, tr).entries ==> Populated(t, tr).entries[k] == tr(t.entries[k])
  {
  }

  /** The populated bundle is empty exactly when every call failed. */
  lemma PopulatedEmptyIff(t: Template, tr: Translator)
    ensures Populated(t, tr).IsEmpty() <==> forall k :: k in t.entries ==> tr(t.entries[k]).None?
  {
    var b := Populated(t, tr);
    EmptyIffNoEntries(b);
    if !b.IsEmpty() {
      assert b.keys[0] in b.entries;
    }
  }

  // ---------------------------------------------------------------------------
  // translate_from_key_mode: merge into an existing bundle from a start index

  /** Python truthiness of a translation: present and not the empty string. */
  predicate Truthy(r: Option<string>) {
    r.Some? && r.value != ""
  }

  predicate Overwrites(keys: seq<string>, entries: map<string, string>, tr: Translator, k: string) {
    k in keys && k in entries && Truthy(tr(entries[k]))
  }

  /** An existing bundle after the keys `keys` were translated into it: a key
      is overwritten only by a truthy translation, every other key keeps its
      value or stays absent, and existing keys keep their positions. */
  function MergedOver(b: Bundle, keys: seq<string>, entries: map<string, string>, tr: Translator): (r: Bundle)
    ensures forall k :: k in r.entries <==> k in b.entries || Overwrites(keys, entries, tr, k)
    ensures forall k :: k in r.entries ==>
              r.entries[k] == if Overwrites(keys, entries, tr, k) then tr(entries[k]) else b.entries[k]
    ensures b.keys <= r.keys
    decreases |keys|
  {
    if keys == [] then b
    else
      var k := keys[|keys| - 1];
      var r0 := MergedOver(b, keys[..|keys| - 1], entries, tr);
      var r := if k in entries && Truthy(tr(entries[k])) then r0.Put(k, tr(entries[k])) else r0;
      MergedExtend(b, keys, entries, tr, r0, r);
      r
  }

  /** The step of `MergedOver`: merging the last key keeps all three facts. */
  lemma MergedExtend(b: Bundle, keys: seq<string>, entries: map<string, string>, tr: Translator, r0: Bundle, r: Bundle)
    requires keys != []
    requires var init := keys[..|keys| - 1];
             && (forall k :: k in r0.entries <==> k in b.entries || Overwrites(init, entries, tr, k))
             && (forall k :: k in r0.entries ==>
                   r0.entries[k] == if Overwrites(init, entries, tr, k) then tr(entries[k]) else b.entries[k])
             && b.keys <= r0.keys
    requires var k := keys[|keys| - 1];
             r == if k in entries && Truthy(tr(entries[k])) then r0.Put(k, tr(entries[k])) else r0
    ensures forall k :: k in r.entries <==> k in b.entries || Overwrites(keys, entries, tr, k)
    ensures forall k :: k in r.entries ==>
              r.entries[k] == if Overwrites(keys, entries, tr, k) then tr(entries[k]) else b.entries[k]
    ensures b.keys <= r.keys
  {
    var init := keys[..|keys| - 1];
    var last := keys[|keys| - 1];
    forall k
      ensures k in r.entries <==> k in b.entries || Overwrites(keys, entries, tr, k)
      ensures k in r.entries ==>
                r.entries[k] == if Overwrites(keys, entries, tr, k) then tr(entries[k]) else b.entries[k]
    {
      if k != last {
        assert k in keys <==> k in init;
      }
    }
  }

  function Merged(b: Bundle, t: Template, start: nat, tr: Translator): Bundle
    requires start <= |t.keys|
  {
    MergedOver(b, t.keys[start..], t.entries, tr)
  }

  lemma MergedStep(b: Bundle, keys: seq<string>, entries: map<string, string>, tr: Translator, start: nat, i: nat)
    requires start <= i < |keys|
    ensures MergedOver(b, keys[start..i + 1], entries, tr)
            == var r0 := MergedOver(b, keys[start..i], entries, tr);
               if keys[i] in entries && Truthy(tr(entries[keys[i]])) then r0.Put(keys[i], tr(entries[keys[i]])) else r0
  {
    var ks := keys[start..i + 1];
    assert ks[..|ks| - 1] == keys[start..i];
    assert ks[|ks| - 1] == keys[i];
  }

  /** The inner loop of `translate_from_key_mode`, over the keys from `start` on. */
  method MergeFrom(b: Bundle, t: Template, start: nat, tr: Translator) returns (r: Bundle)
    requires start <= |t.keys|
    ensures r == Merged(b, t, start, tr)
  {
    r := b;
    var i := start;
    assert t.keys[start..i] == [];
    while i < |t.keys|
      invariant start <= i <= |t.keys|
      invariant r == MergedOver(b, t.keys[start..i], t.entries, tr)
    {
      var key := t.keys[i];
      assert key in t.entries;
      MergedStep(b, t.keys, t.entries, tr, start, i);
      var translated := tr(t.entries[key]);
      if Truthy(translated) {
        r := r.Put(key, translated);
      }
      i := i + 1;
    }
    assert t.keys[start..i] == t.keys[start..];
  }

  /** Keys before the start index, and keys the template does not have,
      come out of the merge exactly as they went in. */
  lemma MergedKeepsOthers(b: Bundle, t: Template, start: nat, tr: Translator, k: string)
    requires start <= |t.keys|
    requires k in t.keys[..start] || k !in t.keys
    ensures k in Merged(b, t, start, tr).entries <==> k in b.entries
    ensures k in b.entries ==> Merged(b, t, start, tr).entries[k] == b.entries[k]
  {
  }

  /** A key from the start index on is overwritten exactly when its
      translation is truthy, and then holds that translation. */
  lemma MergedOverwrites(b: Bundle, t: Template, start: nat, tr: Translator, i: nat)
    requires start <= i < |t.keys|
    ensures var k := t.keys[i];
            var r := Merged(b, t, start, tr);
            if Truthy(tr(t.entries[k])) then k in r.entries && r.entries[k] == tr(t.entries[k])
            else (k in r.entries <==> k in b.entries) && (k in b.entries ==> r.entries[k] == b.entries[k])
  {
    assert t.keys[start..][i - start] == t.keys[i];
  }

  /** Merging into a bundle that already holds every truthy translation
      changes nothing. */
  lemma {:induction false} MergedOverFixed(m: Bundle, keys: seq<string>, entries: map<string, string>, tr: Translator)
    requires forall k :: Overwrites(keys, entries, tr, k) ==> k in m.entries && m.entries[k] == tr(entries[k])
    ensures MergedOver(m, keys, entries, tr) == m
    decreases |keys|
  {
    if keys != [] {
      var init := keys[..|keys| - 1];
      var k := keys[|keys| - 1];
      assert forall j :: Overwrites(init, entries, tr, j) ==> Overwrites(keys, entries, tr, j);
      MergedOverFixed(m, init, entries, tr);
      if k in entries && Truthy(tr(entries[k])) {
        assert Overwrites(keys, entries, tr, k);
        PutSame(m, k);
      }
    }
  }

  /** Resuming twice from the same key with the same provider gives what
      resuming once gave. */
  lemma MergedIdempotent(b: Bundle, t: Template, start: nat, tr: Translator)
    requires start <= |t.keys|
    ensures Merged(Merged(b, t, start, tr), t, start, tr) == Merged(b, t, start, tr)
  {
    MergedOverFixed(Merged(b, t, start, tr), t.keys[start..], t.entries, tr);
  }

  // ---------------------------------------------------------------------------
  // deepL_cleanup_mode: reassign the short keys a bundle already has

  function IsShortIn(entries: map<string, string>): string -> bool {
    k => k in entries && IsShort(entries[k])
  }

  /** `short_content_keys`: the template keys whose text has fewer than four tokens. */
  function ShortKeys(t: Template): (ks: seq<string>)
    ensures forall k :: k in ks <==> k in t.entries && IsShort(t.entries[k])
  {
    var ks := Filter(t.keys, IsShortIn(t.entries));
    forall k | k in t.entries && IsShort(t.entries[k])
      ensures k in ks
    {
      var i := IndexOf(t.keys, k);
      assert IsShortIn(t.entries)(t.keys[i]);
    }
    ks
  }

  /** A bundle after the keys `keys` were reassigned where present: same keys
      in the same order; a present listed key holds the call's result, which
      may be `None`; every other value is unchanged. */
  function CleanedOver(b: Bundle, keys: seq<string>, entries: map<string, string>, tr: Translator): (r: Bundle)
    requires forall k :: k in keys ==> k in entries
    ensures r.keys == b.keys && r.entries.Keys == b.entries.Keys
    ensures forall k :: k in b.entries ==> r.entries[k] == if k in keys then tr(entries[k]) else b.entries[k]
    decreases |keys|
  {
    if keys == [] then b
    else
      var k := keys[|keys| - 1];
      var r0 := CleanedOver(b, keys[..|keys| - 1], entries, tr);
      assert forall j :: j in keys <==> j in keys[..|keys| - 1] || j == k;
      if k in r0.entries then r0.Put(k, tr(entries[k])) else r0
  }

  function Cleaned(b: Bundle, t: Template, tr: Translator): Bundle {
    CleanedOver(b, ShortKeys(t), t.entries, tr)
  }

  lemma CleanedStep(b: Bundle, keys: seq<string>, entries: map<string, string>, tr: Translator, i: nat)
    requires (forall k :: k in keys ==> k in entries) && i < |keys|
    ensures CleanedOver(b, keys[..i + 1], entries, tr)
            == var r0 := CleanedOver(b, keys[..i], entries, tr);
               if keys[i] in r0.entries then r0.Put(keys[i], tr(entries[keys[i]])) else r0
  {
    assert keys[..i + 1][..i] == keys[..i];
  }

  /** The inner loop of `deepL_cleanup_mode`. */
  method Cleanup(b: Bundle, t: Template, shortKeys: seq<string>, tr: Translator) returns (r: Bundle)
    requires shortKeys == ShortKeys(t)
    ensures r == Cleaned(b, t, tr)
  {
    r := b;
    var i := 0;
    assert shortKeys[..i] == [];
    while i < |shortKeys|
      invariant 0 <= i <= |shortKeys|
      invariant r == CleanedOver(b, shortKeys[..i], t.entries, tr)
    {
      var key := shortKeys[i];
      assert key in t.entries;
      CleanedStep(b, shortKeys, t.entries, tr, i);
      if key in r.entries {
        r := r.Put(key, tr(t.entries[key]));
      }
      i := i + 1;
    }
    assert shortKeys[..i] == shortKeys;
  }

  /** Reassigning keys that already hold the call's result changes nothing. */
  lemma {:induction false} CleanedOverFixed(c: Bundle, keys: seq<string>, entries: map<string, string>, tr: Translator)
    requires forall k :: k in keys ==> k in entries
    requires forall k :: k in keys && k in c.entries ==> c.entries[k] == tr(entries[k])
    ensures CleanedOver(c, keys, entries, tr) == c
    decreases |keys|
  {
    if keys != [] {
      var init := keys[..|keys| - 1];
      var k := keys[|keys| - 1];
      assert forall j :: j in init ==> j in keys;
      CleanedOverFixed(c, init, entries, tr);
      if k in c.entries {
        PutSame(c, k);
      }
    }
  }

  /** Cleaning a cleaned bundle again with the same provider changes nothing. */
  lemma CleanedIdempotent(b: Bundle, t: Template, tr: Translator)
    ensures Cleaned(Cleaned(b, t, tr), t, tr) == Cleaned(b, t, tr)
  {
    CleanedOverFixed(Cleaned(b, t, tr), ShortKeys(t), t.entries, tr);
  }

  /** Cleanup never adds or removes a key, leaves every key whose template
      text has four or more tokens (or that the template lacks) alone, and
      reassigns each present short key to the call's result. */
  lemma CleanedTouchesOnlyShortKeys(b: Bundle, t: Template, tr: Translator, k: string)
    requires k in b.entries
    ensures Cleaned(b, t, tr).keys == b.keys
    ensures Cleaned(b, t, tr).entries.Keys == b.entries.Keys
    ensures k in t.entries && IsShort(t.entries[k]) ==> Cleaned(b, t, tr).entries[k] == tr(t.entries[k])
    ensures !(k in t.entries && IsShort(t.entries[k])) ==> Cleaned(b, t, tr).entries[k] == b.entries[k]
  {
    if k in t.entries && IsShort(t.entries[k]) {
      var i := IndexOf(t.keys, k);
      assert IsShortIn(t.entries)(t.keys[i]);
    }
  }
}
