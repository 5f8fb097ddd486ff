/** Which languages a batch covers: the codes derived from the bundle file
    names, the DeepL partition of `confirm_translation`, and the Google
    targets of `fallback_translation`. */
module Languages {
  import opened Text
  import opened Seqs

  /** A file the plain mode translates into: a `.json` file other than the template. */
  predicate IsTargetFile(f: string, templateLang: string) {
    EndsWith(f, ".json") && f != templateLang + ".json"
  }

  /** `target_languages`: the first dot-separated part of each target file, in listing order. */
  function TargetLanguages(files: seq<string>, templateLang: string): (langs: seq<string>)
    ensures |langs| <= |files|
    ensures forall f :: f in files && IsTargetFile(f, templateLang) ==> FirstDotPart(f) in langs
    ensures forall x :: x in langs ==> exists f :: f in files && IsTargetFile(f, templateLang) && x == FirstDotPart(f)
    decreases |files|
  {
    if files == [] then []
    else
      var f := files[|files| - 1];
      var init := files[..|files| - 1];
      assert forall g :: g in files <==> g in init || g == f;
      var langs0 := TargetLanguages(init, templateLang);
      if IsTargetFile(f, templateLang) then langs0 + [FirstDotPart(f)] else langs0
  }

  // ---------------------------------------------------------------------------
  // The partition loop of confirm_translation: a `for` over a list that the
  // body shrinks with `list.remove`. Python's list iterator keeps an index, so
  // after a removal the element that slides into the current slot is never
  // looked at.

  /** The loop from iterator index `i` on, with the list as it is now and the
      languages moved out so far. */
  function PartitionFrom(kept: seq<string>, i: nat, supported: set<string>, deferred: seq<string>)
    : (r: (seq<string>, seq<string>))
    decreases |kept| + 1 - i
  {
    if i >= |kept| then (kept, deferred)
    else if Upper(kept[i]) in supported then PartitionFrom(kept, i + 1, supported, deferred)
    else PartitionFrom(RemoveFirst(kept, kept[i]), i + 1, supported, deferred + [kept[i]])
  }

  /** (`target_languages`, `not_translated_languages`) after the loop. */
  function ConfirmPartition(targets: seq<string>, supported: set<string>): (seq<string>, seq<string>) {
    PartitionFrom(targets, 0, supported, [])
  }

  /** The partition loop itself (script.py:216-220). */
  method PartitionUnsupported(targets: seq<string>, supported: set<string>)
    returns (kept: seq<string>, deferred: seq<string>)
    ensures (kept, deferred) == ConfirmPartition(targets, supported)
    ensures multiset(kept + deferred) == multiset(targets)
    ensures forall x :: x in deferred ==> Upper(x) !in supported
  {
    kept, deferred := targets, [];
    var i := 0;
    while i < |kept|
      invariant PartitionFrom(kept, i, supported, deferred) == ConfirmPartition(targets, supported)
      decreases |kept| + 1 - i
    {
      var lang := kept[i];
      if Upper(lang) !in supported {
        deferred := deferred + [lang];
        kept := RemoveFirst(kept, lang);
      }
      i := i + 1;
    }
    PartitionPermutes(targets, supported);
  }

  lemma {:induction false} PartitionFromPermutes(kept: seq<string>, i: nat, supported: set<string>, deferred: seq<string>)
    ensures var r := PartitionFrom(kept, i, supported, deferred);
            multiset(r.0 + r.1) == multiset(kept + deferred)
            && (forall x :: x in r.1 ==> x in deferred || Upper(x) !in supported)
    decreases |kept| + 1 - i
  {
    if i < |kept| {
      if Upper(kept[i]) in supported {
        PartitionFromPermutes(kept, i + 1, supported, deferred);
      } else {
        var x := kept[i];
        var k := RemoveFirst(kept, x);
        PartitionFromPermutes(k, i + 1, supported, deferred + [x]);
        calc {
          multiset(k + (deferred + [x]));
          multiset(k) + multiset(deferred) + multiset{x};
          multiset(kept) + multiset(deferred);
        }
      }
    }
  }

  /** Whatever the list, nothing is lost or duplicated, only unsupported codes
      are moved out, and so every supported code stays as often as it was there. */
  lemma PartitionPermutes(targets: seq<string>, supported: set<string>)
    ensures var (kept, deferred) := ConfirmPartition(targets, supported);
            && multiset(kept + deferred) == multiset(targets)
            && (forall x :: x in deferred ==> Upper(x) !in supported)
            && (forall x :: Upper(x) in supported ==> multiset(kept)[x] == multiset(targets)[x])
  {
    PartitionFromPermutes(targets, 0, supported, []);
    var (kept, deferred) := ConfirmPartition(targets, supported);
    assert targets + [] == targets;
    forall x | Upper(x) in supported
      ensures multiset(kept)[x] == multiset(targets)[x]
    {
      assert x !in deferred;
      assert multiset(kept + deferred)[x] == multiset(kept)[x] + multiset(deferred)[x];
    }
  }

  /** The loop on a list without repetitions, written as a plain recursion:
      an unsupported code is moved out and the code after it is kept without
      being looked at. */
  function SkipNext(l: seq<string>, supported: set<string>): (r: (seq<string>, seq<string>))
    decreases |l|
  {
    if l == [] then ([], [])
    else if Upper(l[0]) in supported then
      var r0 := SkipNext(l[1..], supported);
      ([l[0]] + r0.0, r0.1)
    else if |l| == 1 then ([], l)
    else
      var r0 := SkipNext(l[2..], supported);
      ([l[1]] + r0.0, [l[0]] + r0.1)
  }

  lemma ShiftOne(a: seq<string>, b: seq<string>)
    requires b != []
    ensures (a + [b[0]]) + b[1..] == a + b
  {
  }

  /** One step of the loop on a list without repetitions, at the first
      unexamined element `rest[0]`. */
  lemma PartitionStepDistinct(prefix: seq<string>, rest: seq<string>, supported: set<string>, deferred: seq<string>)
    requires Distinct(prefix + rest) && rest != []
    ensures Upper(rest[0]) in supported ==>
              PartitionFrom(prefix + rest, |prefix|, supported, deferred)
              == PartitionFrom(prefix + rest, |prefix| + 1, supported, deferred)
    ensures Upper(rest[0]) !in supported ==>
              && Distinct(prefix + rest[1..])
              && PartitionFrom(prefix + rest, |prefix|, supported, deferred)
                 == PartitionFrom(prefix + rest[1..], |prefix| + 1, supported, deferred + [rest[0]])
  {
    var l := prefix + rest;
    assert l[|prefix|] == rest[0];
    if Upper(rest[0]) !in supported {
      IndexOfDistinct(l, |prefix|);
      assert l[..|prefix|] == prefix && l[|prefix| + 1..] == rest[1..];
      DistinctWithout(l, |prefix|);
    }
  }

  lemma {:induction false} PartitionFromDistinct(prefix: seq<string>, rest: seq<string>, supported: set<string>,
                                                 deferred: seq<string>)
    requires Distinct(prefix + rest)
    ensures PartitionFrom(prefix + rest, |prefix|, supported, deferred)
            == (prefix + SkipNext(rest, supported).0, deferred + SkipNext(rest, supported).1)
    decreases |rest|
  {
    if rest == [] {
      assert prefix + rest == prefix;
      assert prefix + [] == prefix && deferred + [] == deferred;
    } else if Upper(rest[0]) in supported {
      PartitionStepDistinct(prefix, rest, supported, deferred);
      DistinctShift(prefix, rest);
      PartitionFromDistinct(prefix + [rest[0]], rest[1..], supported, deferred);
      KeepCase(prefix, rest, supported, deferred);
    } else if |rest| == 1 {
      PartitionStepDistinct(prefix, rest, supported, deferred);
      LastCase(prefix, rest, supported, deferred);
    } else {
      PartitionStepDistinct(prefix, rest, supported, deferred);
      var d2 := deferred + [rest[0]];
      DistinctShift(prefix, rest[1..]);
      PartitionFromDistinct(prefix + [rest[1]], rest[2..], supported, d2);
      SkipCase(prefix, rest, supported, deferred, PartitionFrom(prefix + rest[1..], |prefix| + 1, supported, d2));
    }
  }

  /** The supported case of `PartitionFromDistinct`, from the recursive result. */
  lemma KeepCase(prefix: seq<string>, rest: seq<string>, supported: set<string>, deferred: seq<string>)
    requires rest != [] && Upper(rest[0]) in supported
    requires PartitionFrom((prefix + [rest[0]]) + rest[1..], |prefix| + 1, supported, deferred)
             == ((prefix + [rest[0]]) + SkipNext(rest[1..], supported).0, deferred + SkipNext(rest[1..], supported).1)
    ensures PartitionFrom(prefix + rest, |prefix| + 1, supported, deferred)
            == (prefix + SkipNext(rest, supported).0, deferred + SkipNext(rest, supported).1)
  {
    ShiftOne(prefix, rest);
    var r0 := SkipNext(rest[1..], supported);
    SkipNextKeeps(rest, supported);
    AppendAssoc(prefix, rest[0], r0.0);
  }

  lemma SkipNextKeeps(l: seq<string>, supported: set<string>)
    requires l != [] && Upper(l[0]) in supported
    ensures SkipNext(l, supported) == ([l[0]] + SkipNext(l[1..], supported).0, SkipNext(l[1..], supported).1)
  {
  }

  /** The last element, unsupported: it is moved out and the loop ends. */
  lemma LastCase(prefix: seq<string>, rest: seq<string>, supported: set<string>, deferred: seq<string>)
    requires |rest| == 1 && Upper(rest[0]) !in supported
    ensures PartitionFrom(prefix + rest[1..], |prefix| + 1, supported, deferred + [rest[0]])
            == (prefix + SkipNext(rest, supported).0, deferred + SkipNext(rest, supported).1)
  {
    assert prefix + rest[1..] == prefix;
    assert SkipNext(rest, supported) == ([], rest);
    assert prefix + [] == prefix && rest == [rest[0]];
  }

  lemma DistinctShift(a: seq<string>, b: seq<string>)
    requires b != [] && Distinct(a + b)
    ensures Distinct((a + [b[0]]) + b[1..])
  {
    ShiftOne(a, b);
  }

  /** The unsupported case of `PartitionFromDistinct`, from the recursive result. */
  lemma SkipCase(prefix: seq<string>, rest: seq<string>, supported: set<string>, deferred: seq<string>,
                 now: (seq<string>, seq<string>))
    requires |rest| >= 2 && Upper(rest[0]) !in supported
    requires now == PartitionFrom(prefix + rest[1..], |prefix| + 1, supported, deferred + [rest[0]])
    requires PartitionFrom((prefix + [rest[1]]) + rest[2..], |prefix| + 1, supported, deferred + [rest[0]])
             == ((prefix + [rest[1]]) + SkipNext(rest[2..], supported).0,
                 (deferred + [rest[0]]) + SkipNext(rest[2..], supported).1)
    ensures now == (prefix + SkipNext(rest, supported).0, deferred + SkipNext(rest, supported).1)
  {
    var k1 := prefix + rest[1..];
    var k2 := (prefix + [rest[1]]) + rest[2..];
    assert rest[1..][0] == rest[1] && rest[1..][1..] == rest[2..];
    ShiftOne(prefix, rest[1..]);
    assert k1 == k2;
    var r0 := SkipNext(rest[2..], supported);
    assert SkipNext(rest, supported) == ([rest[1]] + r0.0, [rest[0]] + r0.1);
    AppendAssoc(prefix, rest[1], r0.0);
    AppendAssoc(deferred, rest[0], r0.1);
  }

  lemma AppendAssoc(a: seq<string>, x: string, b: seq<string>)
    ensures (a + [x]) + b == a + ([x] + b)
  {
  }

  /** On a list without repetitions the source's loop is `SkipNext`. */
  lemma ConfirmPartitionDistinct(targets: seq<string>, supported: set<string>)
    requires Distinct(targets)
    ensures ConfirmPartition(targets, supported) == SkipNext(targets, supported)
  {
    var r := SkipNext(targets, supported);
    assert [] + targets == targets;
    PartitionFromDistinct([], targets, supported, []);
    assert [] + r.0 == r.0 && [] + r.1 == r.1;
  }

  /** An unsupported code right after a moved-out one stays in the target list. */
  lemma UnsupportedAfterRemovalStays(targets: seq<string>, supported: set<string>)
    requires Distinct(targets) && |targets| >= 2
    requires Upper(targets[0]) !in supported
    ensures targets[0] in ConfirmPartition(targets, supported).1
    ensures targets[1] in ConfirmPartition(targets, supported).0
  {
    ConfirmPartitionDistinct(targets, supported);
  }

  function IsSupportedBy(supported: set<string>): string -> bool {
    x => Upper(x) in supported
  }

  function IsUnsupportedBy(supported: set<string>): string -> bool {
    x => Upper(x) !in supported
  }

  /** Filtering a list that starts with one element that fails and one that passes. */
  lemma FilterDropKeep(x: string, y: string, rest: seq<string>, p: string -> bool)
    requires !p(x) && p(y)
    ensures Filter([x] + ([y] + rest), p) == [y] + Filter(rest, p)
  {
    FilterCons(x, [y] + rest, p);
    FilterCons(y, rest, p);
    assert [] + ([y] + Filter(rest, p)) == [y] + Filter(rest, p);
  }

  lemma FilterKeepDrop(x: string, y: string, rest: seq<string>, p: string -> bool)
    requires p(x) && !p(y)
    ensures Filter([x] + ([y] + rest), p) == [x] + Filter(rest, p)
  {
    FilterCons(x, [y] + rest, p);
    FilterCons(y, rest, p);
    assert [] + Filter(rest, p) == Filter(rest, p);
  }

  lemma ConsSplit(l: seq<string>)
    requires l != []
    ensures l == [l[0]] + l[1..]
  {
  }

  /** A fact about the reference recursion `SkipNext` alone: when no two
      neighbours are both unsupported, it keeps exactly the supported codes
      and moves out exactly the unsupported ones, both in order. The same
      fact about the loop itself, on every list, is `ConfirmPartitionExact`. */
  lemma {:induction false} SkipNextExactWithoutAdjacentUnsupported(l: seq<string>, supported: set<string>)
    requires forall i :: 0 <= i < |l| - 1 ==> Upper(l[i]) in supported || Upper(l[i + 1]) in supported
    ensures SkipNext(l, supported).0 == Filter(l, IsSupportedBy(supported))
    ensures SkipNext(l, supported).1 == Filter(l, IsUnsupportedBy(supported))
    decreases |l|
  {
    var p, q := IsSupportedBy(supported), IsUnsupportedBy(supported);
    if l == [] {
    } else if Upper(l[0]) in supported {
      var t := l[1..];
      SkipNextExactWithoutAdjacentUnsupported(t, supported);
      ConsSplit(l);
      FilterCons(l[0], t, p);
      FilterCons(l[0], t, q);
    } else if |l| == 1 {
      assert l == [l[0]] + [];
      FilterCons(l[0], [], p);
      FilterCons(l[0], [], q);
    } else {
      assert Upper(l[1]) in supported;
      var t := l[2..];
      SkipNextExactWithoutAdjacentUnsupported(t, supported);
      ConsSplit(l);
      ConsSplit(l[1..]);
      assert l[1..][1..] == t;
      assert l == [l[0]] + ([l[1]] + t);
      assert !p(l[0]) && p(l[1]) && q(l[0]) && !q(l[1]);
      FilterDropKeep(l[0], l[1], t, p);
      FilterKeepDrop(l[0], l[1], t, q);
      assert SkipNext(l, supported) == ([l[1]] + SkipNext(t, supported).0, [l[0]] + SkipNext(t, supported).1);
    }
  }

  /** No two neighbours of `l` are both unsupported. */
  predicate NoAdjacentUnsupported(l: seq<string>, supported: set<string>) {
    forall i :: 0 <= i < |l| - 1 ==> Upper(l[i]) in supported || Upper(l[i + 1]) in supported
  }

  /** `list.remove` of a value the prefix does not hold drops the element
      right after the prefix. */
  lemma RemoveFirstAfter(prefix: seq<string>, rest: seq<string>)
    requires rest != [] && rest[0] !in prefix
    ensures RemoveFirst(prefix + rest, rest[0]) == prefix + rest[1..]
  {
    var l := prefix + rest;
    var i := IndexOf(l, rest[0]);
    assert l[|prefix|] == rest[0];
    assert i == |prefix|;
    assert l[..i] == prefix && l[i + 1..] == rest[1..];
  }

  lemma NoAdjacentTail(rest: seq<string>, supported: set<string>)
    requires rest != [] && NoAdjacentUnsupported(rest, supported)
    ensures NoAdjacentUnsupported(rest[1..], supported)
  {
    var t := rest[1..];
    forall i | 0 <= i < |t| - 1
      ensures Upper(t[i]) in supported || Upper(t[i + 1]) in supported
    {
      assert t[i] == rest[i + 1] && t[i + 1] == rest[i + 2];
    }
  }

  /** The loop from the end of an all-supported prefix, over a rest with no
      two unsupported neighbours: everything examined or skipped before the
      iterator is supported, so each `list.remove` drops the code under the
      iterator, and every skipped code is a supported one. */
  lemma {:induction false} PartitionFromExact(prefix: seq<string>, rest: seq<string>, supported: set<string>,
                                              deferred: seq<string>)
    requires forall x :: x in prefix ==> Upper(x) in supported
    requires NoAdjacentUnsupported(rest, supported)
    ensures PartitionFrom(prefix + rest, |prefix|, supported, deferred)
            == (prefix + Filter(rest, IsSupportedBy(supported)), deferred + Filter(rest, IsUnsupportedBy(supported)))
    decreases |rest|
  {
    if rest == [] {
      assert prefix + rest == prefix && prefix + [] == prefix && deferred + [] == deferred;
    } else if Upper(rest[0]) in supported {
      NoAdjacentTail(rest, supported);
      ExactKeepStep(prefix, rest, supported, deferred);
      PartitionFromExact(prefix + [rest[0]], rest[1..], supported, deferred);
      ExactKeepCase(prefix, deferred, rest, IsSupportedBy(supported), IsUnsupportedBy(supported));
    } else {
      ExactRemoveStep(prefix, rest, supported, deferred);
      if |rest| == 1 {
        ExactLastCase(prefix, rest, supported, deferred);
      } else {
        ExactSkipPrep(prefix, rest, supported);
        PartitionFromExact(prefix + [rest[1]], rest[2..], supported, deferred + [rest[0]]);
        ExactSkipCase(prefix, deferred, rest, IsSupportedBy(supported), IsUnsupportedBy(supported));
      }
    }
  }

  /** The step at an unsupported code under the iterator. */
  lemma ExactRemoveStep(prefix: seq<string>, rest: seq<string>, supported: set<string>, deferred: seq<string>)
    requires rest != [] && Upper(rest[0]) !in supported
    requires forall x :: x in prefix ==> Upper(x) in supported
    ensures PartitionFrom(prefix + rest, |prefix|, supported, deferred)
            == PartitionFrom(prefix + rest[1..], |prefix| + 1, supported, deferred + [rest[0]])
  {
    RemoveFirstAfter(prefix, rest);
    assert (prefix + rest)[|prefix|] == rest[0];
  }

  /** After an unsupported code comes a supported one, which the iterator
      skips over: it joins the all-supported prefix. */
  lemma ExactSkipPrep(prefix: seq<string>, rest: seq<string>, supported: set<string>)
    requires |rest| >= 2 && Upper(rest[0]) !in supported
    requires forall x :: x in prefix ==> Upper(x) in supported
    requires NoAdjacentUnsupported(rest, supported)
    ensures Upper(rest[1]) in supported
    ensures forall x :: x in prefix + [rest[1]] ==> Upper(x) in supported
    ensures NoAdjacentUnsupported(rest[2..], supported)
    ensures prefix + rest[1..] == (prefix + [rest[1]]) + rest[2..]
    ensures |prefix + [rest[1]]| == |prefix| + 1
  {
    NoAdjacentTail(rest, supported);
    NoAdjacentTail(rest[1..], supported);
    assert rest[1..][1..] == rest[2..];
    assert Upper(rest[0]) in supported || Upper(rest[1]) in supported;
    ShiftOne(prefix, rest[1..]);
    assert rest[1..][0] == rest[1];
  }

  /** The step at a supported code under the iterator. */
  lemma ExactKeepStep(prefix: seq<string>, rest: seq<string>, supported: set<string>, deferred: seq<string>)
    requires rest != [] && Upper(rest[0]) in supported
    ensures PartitionFrom(prefix + rest, |prefix|, supported, deferred)
            == PartitionFrom((prefix + [rest[0]]) + rest[1..], |prefix| + 1, supported, deferred)
  {
    assert (prefix + rest)[|prefix|] == rest[0];
    ShiftOne(prefix, rest);
  }

  /** The supported case of `PartitionFromExact`, on the filters alone. */
  lemma ExactKeepCase(prefix: seq<string>, deferred: seq<string>, rest: seq<string>, p: string -> bool, q: string -> bool)
    requires rest != [] && p(rest[0]) && !q(rest[0])
    ensures ((prefix + [rest[0]]) + Filter(rest[1..], p), deferred + Filter(rest[1..], q))
            == (prefix + Filter(rest, p), deferred + Filter(rest, q))
  {
    ConsSplit(rest);
    FilterCons(rest[0], rest[1..], p);
    FilterCons(rest[0], rest[1..], q);
    AppendAssoc(prefix, rest[0], Filter(rest[1..], p));
    assert [] + Filter(rest[1..], q) == Filter(rest[1..], q);
  }

  /** The last code, unsupported: it is moved out and the loop ends. */
  lemma ExactLastCase(prefix: seq<string>, rest: seq<string>, supported: set<string>, deferred: seq<string>)
    requires |rest| == 1 && Upper(rest[0]) !in supported
    ensures PartitionFrom(prefix + rest[1..], |prefix| + 1, supported, deferred + [rest[0]])
            == (prefix + Filter(rest, IsSupportedBy(supported)), deferred + Filter(rest, IsUnsupportedBy(supported)))
  {
    assert prefix + rest[1..] == prefix && prefix + [] == prefix;
    assert rest == [rest[0]] + [];
    FilterCons(rest[0], [], IsSupportedBy(supported));
    FilterCons(rest[0], [], IsUnsupportedBy(supported));
  }

  /** The unsupported case of `PartitionFromExact` with a supported code
      after it, on the filters alone. */
  lemma ExactSkipCase(prefix: seq<string>, deferred: seq<string>, rest: seq<string>, p: string -> bool, q: string -> bool)
    requires |rest| >= 2 && !p(rest[0]) && q(rest[0]) && p(rest[1]) && !q(rest[1])
    ensures ((prefix + [rest[1]]) + Filter(rest[2..], p), (deferred + [rest[0]]) + Filter(rest[2..], q))
            == (prefix + Filter(rest, p), deferred + Filter(rest, q))
  {
    var u := rest[2..];
    assert rest == [rest[0]] + ([rest[1]] + u);
    FilterDropKeep(rest[0], rest[1], u, p);
    FilterKeepDrop(rest[0], rest[1], u, q);
    AppendAssoc(prefix, rest[1], Filter(u, p));
    AppendAssoc(deferred, rest[0], Filter(u, q));
  }

  /** When no two neighbours are both unsupported, the source's loop keeps
      exactly the supported codes and moves out exactly the unsupported
      ones, both in order, whether or not a code repeats. */
  lemma ConfirmPartitionExact(targets: seq<string>, supported: set<string>)
    requires NoAdjacentUnsupported(targets, supported)
    ensures ConfirmPartition(targets, supported)
            == (Filter(targets, IsSupportedBy(supported)), Filter(targets, IsUnsupportedBy(supported)))
  {
    PartitionFromExact([], targets, supported, []);
    assert [] + targets == targets;
    assert [] + Filter(targets, IsSupportedBy(supported)) == Filter(targets, IsSupportedBy(supported));
    assert [] + Filter(targets, IsUnsupportedBy(supported)) == Filter(targets, IsUnsupportedBy(supported));
  }

  lemma UpperOfTwoLetters(a: char, b: char)
    requires 'a' <= a <= 'z' && 'a' <= b <= 'z'
    ensures Upper([a, b]) == [(a as int - 32) as char, (b as int - 32) as char]
  {
  }

  lemma SkipNextOfFour(a: string, b: string, c: string, d: string, supported: set<string>)
    requires Upper(a) in supported && Upper(b) !in supported && Upper(d) !in supported
    ensures SkipNext([a, b, c, d], supported) == ([a, c], [b, d])
  {
    var l := [a, b, c, d];
    assert l[1..] == [b, c, d];
    assert l[1..][2..] == [d];
    assert SkipNext([d], supported) == ([], [d]);
    var m := [b, c, d];
    assert m[0] == b && m[1] == c && m[2..] == [d] && |m| == 3;
    var r := SkipNext(m[2..], supported);
    assert SkipNext(m, supported) == ([m[1]] + r.0, [m[0]] + r.1);
    assert r == ([], [d]);
    assert [m[1]] + r.0 == [c];
    assert [m[0]] + r.1 == [b, d];
    assert l[0] == a && l[1..] == m;
    assert SkipNext(l, supported) == ([l[0]] + SkipNext(m, supported).0, SkipNext(m, supported).1);
    assert [a] + [c] == [a, c];
  }

  lemma ExampleCodes()
    ensures Distinct(["sv", "xx", "yy", "de"])
  {
    var l := ["sv", "xx", "yy", "de"];
    assert l[0][0] == 's' && l[1][0] == 'x' && l[2][0] == 'y' && l[3][0] == 'd';
    assert l[1][1] == 'x' && l[2][1] == 'y';
  }

  lemma ExampleUppers()
    ensures Upper("sv") == "SV" && Upper("xx") == "XX" && Upper("de") == "DE"
  {
    UpperOfTwoLetters('s', 'v');
    UpperOfTwoLetters('x', 'x');
    UpperOfTwoLetters('d', 'e');
  }

  /** Two unsupported neighbours: the second survives the loop. */
  lemma PartitionSkipExample()
    ensures ConfirmPartition(["sv", "xx", "yy", "de"], {"SV"}) == (["sv", "yy"], ["xx", "de"])
  {
    ExampleCodes();
    ExampleUppers();
    ConfirmPartitionDistinct(["sv", "xx", "yy", "de"], {"SV"});
    SkipNextOfFour("sv", "xx", "yy", "de", {"SV"});
  }

  // ---------------------------------------------------------------------------
  // fallback_translation (script.py:91)

  function InSet(s: set<string>): string -> bool {
    x => x in s
  }

  /** `google_translate_languages`: the deferred codes Google lists, in order. */
  function GoogleTargets(deferred: seq<string>, googleLangs: set<string>): (langs: seq<string>)
    ensures forall x :: x in langs <==> x in deferred && x in googleLangs
  {
    Filter(deferred, InSet(googleLangs))
  }

  /** Order is kept: the targets of a concatenation are the concatenated targets,
      and a list Google fully supports is kept as it is. */
  lemma GoogleTargetsKeepOrder(a: seq<string>, b: seq<string>, googleLangs: set<string>)
    ensures GoogleTargets(a + b, googleLangs) == GoogleTargets(a, googleLangs) + GoogleTargets(b, googleLangs)
    ensures (forall i :: 0 <= i < |a| ==> a[i] in googleLangs) ==> GoogleTargets(a, googleLangs) == a
  {
    FilterConcat(a, b, InSet(googleLangs));
    if forall i :: 0 <= i < |a| ==> a[i] in googleLangs {
      FilterAll(a, InSet(googleLangs));
    }
  }
}
