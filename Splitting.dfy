/** Cutting a sequence into parts at separator elements.

    One concept serves the whole editor: the page splitter cuts the document
    at page-break nodes, and the statistics cut the flattened text with
    JavaScript's string split, either at every single separator character
    (a string separator) or at maximal runs of them (a regular expression
    with `+`). */
module Splitting {

  /** Number of elements of `s` that are separators. */
  function CountWhere<T>(s: seq<T>, isSep: T -> bool): nat
  {
    if s == [] then 0 else (if isSep(s[0]) then 1 else 0) + CountWhere(s[1..], isSep)
  }

  /** `s` with every separator taken out, the rest in its original order. */
  function RemoveWhere<T>(s: seq<T>, isSep: T -> bool): seq<T>
  {
    if s == [] then [] else (if isSep(s[0]) then [] else [s[0]]) + RemoveWhere(s[1..], isSep)
  }

  /** Every element of `s` is a separator. */
  predicate AllWhere<T>(s: seq<T>, isSep: T -> bool)
  {
    forall i :: 0 <= i < |s| ==> isSep(s[i])
  }

  /** No element of `s` is a separator. */
  predicate NoneWhere<T>(s: seq<T>, isSep: T -> bool)
  {
    forall i :: 0 <= i < |s| ==> !isSep(s[i])
  }

  /** The parts laid end to end. */
  function Flatten<T>(parts: seq<seq<T>>): seq<T>
  {
    if parts == [] then [] else parts[0] + Flatten(parts[1..])
  }

  /** The parts with one `sep` put back between each two neighbours. */
  function JoinWith<T>(parts: seq<seq<T>>, sep: T): seq<T>
    requires |parts| >= 1
  {
    if |parts| == 1 then parts[0] else parts[0] + [sep] + JoinWith(parts[1..], sep)
  }

  /** The parts that are not empty (filtering strings by truthiness). */
  function NonEmpty<T>(parts: seq<seq<T>>): (kept: seq<seq<T>>)
    ensures |kept| <= |parts|
    ensures forall p :: p in kept ==> p in parts && p != []
    ensures forall p :: p in parts && p != [] ==> p in kept
  {
    if parts == [] then []
    else (if parts[0] == [] then [] else [parts[0]]) + NonEmpty(parts[1..])
  }

  /** Split at every single separator: each separator ends one part and
      starts the next, so neighbouring separators and separators at either
      end give empty parts. */
  function SplitAt<T>(s: seq<T>, isSep: T -> bool): (parts: seq<seq<T>>)
    ensures |parts| == CountWhere(s, isSep) + 1
  {
    if s == [] then [[]]
    else
      var rest := SplitAt(s[1..], isSep);
      if isSep(s[0]) then [[]] + rest else [[s[0]] + rest[0]] + rest[1..]
  }

  /** How many separators `s` starts with: all of its first n elements are
      separators and the next one, if any, is not. */
  function LeadingCount<T>(s: seq<T>, isSep: T -> bool): (n: nat)
    ensures n <= |s| && AllWhere(s[..n], isSep)
    ensures n == |s| || !isSep(s[n])
  {
    if s != [] && isSep(s[0]) then
      var rest := s[1..];
      var k := LeadingCount(rest, isSep);
      assert forall i :: 1 <= i <= k ==> s[i] == rest[..k][i - 1];
      1 + k
    else 0
  }

  /** `s` without its leading separators. */
  function DropWhere<T>(s: seq<T>, isSep: T -> bool): (r: seq<T>)
    ensures |r| <= |s|
    ensures r == [] || !isSep(r[0])
  {
    if s != [] && isSep(s[0]) then DropWhere(s[1..], isSep) else s
  }

  /** `s` without its trailing separators. */
  function DropLastWhere<T>(s: seq<T>, isSep: T -> bool): (r: seq<T>)
    ensures |r| <= |s|
    ensures r == [] || !isSep(r[|r| - 1])
  {
    if s != [] && isSep(s[|s| - 1]) then DropLastWhere(s[..|s| - 1], isSep) else s
  }

  /** Split at maximal runs of separators, as a regular expression `x+`
      does: a run anywhere counts as one cut, so only a run at either end
      leaves an empty part. */
  function SplitRuns<T>(s: seq<T>, isSep: T -> bool): (parts: seq<seq<T>>)
    ensures |parts| >= 1
    ensures forall p :: p in parts ==> NoneWhere(p, isSep)
    decreases |s|
  {
    if s == [] then [[]]
    else if isSep(s[0]) then [[]] + SplitRuns(DropWhere(s[1..], isSep), isSep)
    else
      var rest := SplitRuns(s[1..], isSep);
      assert rest[0] in rest && forall p :: p in rest[1..] ==> p in rest;
      assert NoneWhere([s[0]] + rest[0], isSep) by {
        assert forall i :: 1 <= i < 1 + |rest[0]| ==> ([s[0]] + rest[0])[i] == rest[0][i - 1];
      }
      [[s[0]] + rest[0]] + rest[1..]
  }

  /** Number of maximal runs of non-separators, counted by their last
      element: a non-separator that ends `s` or is followed by a separator. */
  function Runs<T>(s: seq<T>, isSep: T -> bool): nat
  {
    if s == [] then 0
    else (if !isSep(s[0]) && (|s| == 1 || isSep(s[1])) then 1 else 0) + Runs(s[1..], isSep)
  }

  // ---------------------------------------------------------------------
  // What a split promises

  /** No part holds a separator. */
  lemma {:induction false} SplitAtSeparatorFree<T>(s: seq<T>, isSep: T -> bool)
    ensures forall p :: p in SplitAt(s, isSep) ==> NoneWhere(p, isSep)
  {
    if s != [] {
      var rest := SplitAt(s[1..], isSep);
      SplitAtSeparatorFree(s[1..], isSep);
      if !isSep(s[0]) {
        assert rest[0] in rest;
        var first := [s[0]] + rest[0];
        assert NoneWhere(first, isSep) by {
          forall i | 0 <= i < |first| ensures !isSep(first[i]) {
            if i > 0 { assert first[i] == rest[0][i - 1]; }
          }
        }
        forall p | p in SplitAt(s, isSep) ensures NoneWhere(p, isSep) {
          if p != first { assert p in rest[1..]; }
        }
      }
    }
  }

  /** The parts, laid end to end, are the input with its separators removed. */
  lemma {:induction false} FlattenSplitAt<T>(s: seq<T>, isSep: T -> bool)
    ensures Flatten(SplitAt(s, isSep)) == RemoveWhere(s, isSep)
  {
    if s == [] {
      var one: seq<seq<T>> := [[]];
      assert Flatten(one) == [];
    } else {
      var rest := SplitAt(s[1..], isSep);
      FlattenSplitAt(s[1..], isSep);
      assert Flatten(rest) == rest[0] + Flatten(rest[1..]);
      var parts := SplitAt(s, isSep);
      if isSep(s[0]) {
        assert parts[1..] == rest;
      } else {
        assert parts[1..] == rest[1..];
        assert Flatten(parts) == [s[0]] + rest[0] + Flatten(rest[1..]);
      }
    }
  }

  /** A separator-free sequence is one part. */
  lemma {:induction false} SplitAtNoSeparator<T>(s: seq<T>, isSep: T -> bool)
    requires NoneWhere(s, isSep)
    ensures SplitAt(s, isSep) == [s]
  {
    if s != [] {
      assert !isSep(s[0]);
      assert NoneWhere(s[1..], isSep) by {
        forall i | 0 <= i < |s[1..]| ensures !isSep(s[1..][i]) { assert s[1..][i] == s[i + 1]; }
      }
      SplitAtNoSeparator(s[1..], isSep);
      assert [s[0]] + s[1..] == s;
    }
  }

  /** There are no separators exactly when none are counted. */
  lemma {:induction false} CountWhereZero<T>(s: seq<T>, isSep: T -> bool)
    ensures CountWhere(s, isSep) == 0 <==> NoneWhere(s, isSep)
  {
    if s != [] {
      CountWhereZero(s[1..], isSep);
      if NoneWhere(s[1..], isSep) && !isSep(s[0]) {
        forall i | 0 <= i < |s| ensures !isSep(s[i]) {
          if i > 0 { assert s[i] == s[1..][i - 1]; }
        }
      }
      if NoneWhere(s, isSep) {
        forall i | 0 <= i < |s[1..]| ensures !isSep(s[1..][i]) { assert s[1..][i] == s[i + 1]; }
      }
    }
  }

  /** Every element is either counted as a separator or kept by RemoveWhere. */
  lemma {:induction false} RemoveWhereLength<T>(s: seq<T>, isSep: T -> bool)
    ensures |RemoveWhere(s, isSep)| + CountWhere(s, isSep) == |s|
  {
    if s != [] { RemoveWhereLength(s[1..], isSep); }
  }

  /** One unfolding of SplitAt on a sequence given as first element and rest. */
  lemma SplitAtCons<T>(x: T, t: seq<T>, isSep: T -> bool)
    ensures var rest := SplitAt(t, isSep);
      SplitAt([x] + t, isSep) == if isSep(x) then [[]] + rest else [[x] + rest[0]] + rest[1..]
  {
    assert ([x] + t)[0] == x && ([x] + t)[1..] == t;
  }

  /** Cutting at one separator splits the parts list in two: the parts of
      what comes before it followed by the parts of what comes after it. */
  lemma {:induction false} SplitAtAppend<T>(a: seq<T>, sep: T, b: seq<T>, isSep: T -> bool)
    requires isSep(sep)
    ensures SplitAt(a + [sep] + b, isSep) == SplitAt(a, isSep) + SplitAt(b, isSep)
  {
    if a == [] {
      assert a + [sep] + b == [sep] + b;
      SplitAtCons(sep, b, isSep);
    } else {
      SplitAtAppend(a[1..], sep, b, isSep);
      SplitAtAppendStep(a[0], a[1..] + [sep] + b, SplitAt(a[1..], isSep), SplitAt(b, isSep), isSep);
      SplitAtCons(a[0], a[1..], isSep);
      assert a + [sep] + b == [a[0]] + (a[1..] + [sep] + b);
      assert a == [a[0]] + a[1..];
    }
  }

  /** The inductive step of SplitAtAppend, for the parts `ra` before the
      separator and `rb` after it. */
  lemma SplitAtAppendStep<T>(x: T, t: seq<T>, ra: seq<seq<T>>, rb: seq<seq<T>>, isSep: T -> bool)
    requires |ra| >= 1 && SplitAt(t, isSep) == ra + rb
    ensures SplitAt([x] + t, isSep) ==
      (if isSep(x) then [[]] + ra else [[x] + ra[0]] + ra[1..]) + rb
  {
    SplitAtCons(x, t, isSep);
    if !isSep(x) {
      ConsPartAppend([x], ra, rb);
    } else {
      assert [[]] + (ra + rb) == ([[]] + ra) + rb;
    }
  }

  /** Extending the first part commutes with appending more parts. */
  lemma ConsPartAppend<T>(h: seq<T>, ra: seq<seq<T>>, rb: seq<seq<T>>)
    requires |ra| >= 1
    ensures [h + (ra + rb)[0]] + (ra + rb)[1..] == ([h + ra[0]] + ra[1..]) + rb
  {
    assert (ra + rb)[0] == ra[0];
    assert (ra + rb)[1..] == ra[1..] + rb;
  }

  /** Adding one element at the end: a separator opens a new empty last part,
      anything else is appended to the last part. This is the step the page
      loop takes. */
  lemma SplitAtSnoc<T>(s: seq<T>, x: T, isSep: T -> bool)
    ensures var parts := SplitAt(s, isSep);
      SplitAt(s + [x], isSep) ==
        if isSep(x) then parts + [[]]
        else parts[..|parts| - 1] + [parts[|parts| - 1] + [x]]
  {
    if isSep(x) {
      SplitAtAppend(s, x, [], isSep);
      assert s + [x] + [] == s + [x];
    } else {
      SplitAtSnocContent(s, x, isSep);
    }
  }

  lemma {:induction false} SplitAtSnocContent<T>(s: seq<T>, x: T, isSep: T -> bool)
    requires !isSep(x)
    ensures var parts := SplitAt(s, isSep);
      SplitAt(s + [x], isSep) == parts[..|parts| - 1] + [parts[|parts| - 1] + [x]]
  {
    if s == [] {
      assert s + [x] == [x];
      SplitAtNoSeparator([x], isSep);
    } else {
      var t := s[1..];
      SplitAtSnocContent(t, x, isSep);
      SplitAtCons(s[0], t + [x], isSep);
      SplitAtCons(s[0], t, isSep);
      assert s + [x] == [s[0]] + (t + [x]) && s == [s[0]] + t;
      ExtendLastPart(SplitAt(t, isSep), s[0], isSep(s[0]), x);
    }
  }

  /** Extending the last part commutes with putting a part (an empty one, or
      one that starts with `y`) in front. */
  lemma ExtendLastPart<T>(rest: seq<seq<T>>, y: T, ySep: bool, x: T)
    requires |rest| >= 1
    ensures var grown := rest[..|rest| - 1] + [rest[|rest| - 1] + [x]];
      var parts := if ySep then [[]] + rest else [[y] + rest[0]] + rest[1..];
      (if ySep then [[]] + grown else [[y] + grown[0]] + grown[1..])
        == parts[..|parts| - 1] + [parts[|parts| - 1] + [x]]
  {
    if !ySep && |rest| == 1 {
      assert [y] + (rest[0] + [x]) == [y] + rest[0] + [x];
    }
  }

  /** Putting the separator back between the parts gives the input again,
      when every separator is that one value. */
  lemma {:induction false} JoinSplitAt<T>(s: seq<T>, sep: T, isSep: T -> bool)
    requires forall x :: isSep(x) ==> x == sep
    ensures JoinWith(SplitAt(s, isSep), sep) == s
  {
    if s != [] {
      var rest := SplitAt(s[1..], isSep);
      var parts := SplitAt(s, isSep);
      JoinSplitAt(s[1..], sep, isSep);
      if isSep(s[0]) {
        assert parts[1..] == rest;
        assert [s[0]] + s[1..] == s;
      } else if |rest| == 1 {
        assert [s[0]] + rest[0] == s;
      } else {
        assert parts[1..] == rest[1..];
        assert JoinWith(rest, sep) == rest[0] + [sep] + JoinWith(rest[1..], sep);
        assert [s[0]] + s[1..] == s;
      }
    }
  }

  /** Splitting the separator-joined parts gives the parts back, when none of
      them holds a separator. */
  lemma {:induction false} SplitAtJoin<T>(parts: seq<seq<T>>, sep: T, isSep: T -> bool)
    requires isSep(sep) && |parts| >= 1
    requires forall k :: 0 <= k < |parts| ==> NoneWhere(parts[k], isSep)
    ensures SplitAt(JoinWith(parts, sep), isSep) == parts
  {
    SplitAtNoSeparator(parts[0], isSep);
    if |parts| > 1 {
      SplitAtJoin(parts[1..], sep, isSep);
      SplitAtAppend(parts[0], sep, JoinWith(parts[1..], sep), isSep);
      assert [parts[0]] + parts[1..] == parts;
    }
  }

  // ---------------------------------------------------------------------
  // Counting the non-empty parts

  /** Filtering a concatenation filters each half. */
  lemma {:induction false} NonEmptyAppend<T>(a: seq<seq<T>>, b: seq<seq<T>>)
    ensures NonEmpty(a + b) == NonEmpty(a) + NonEmpty(b)
  {
    if a == [] {
      assert a + b == b;
    } else {
      assert (a + b)[0] == a[0];
      assert (a + b)[1..] == a[1..] + b;
      NonEmptyAppend(a[1..], b);
    }
  }

  /** The empty parts add nothing when the parts are laid end to end. */
  lemma {:induction false} FlattenNonEmpty<T>(parts: seq<seq<T>>)
    ensures Flatten(NonEmpty(parts)) == Flatten(parts)
  {
    if parts != [] {
      FlattenNonEmpty(parts[1..]);
      var head: seq<seq<T>> := if parts[0] == [] then [] else [parts[0]];
      FlattenAppend(head, NonEmpty(parts[1..]));
    }
  }

  lemma {:induction false} FlattenAppend<T>(a: seq<seq<T>>, b: seq<seq<T>>)
    ensures Flatten(a + b) == Flatten(a) + Flatten(b)
  {
    if a == [] {
      assert a + b == b;
    } else {
      assert (a + b)[0] == a[0];
      assert (a + b)[1..] == a[1..] + b;
      FlattenAppend(a[1..], b);
    }
  }

  /** The non-empty parts of a split are exactly the maximal runs of
      non-separators, so there are Runs of them. */
  lemma {:induction false} NonEmptySplitAtCount<T>(s: seq<T>, isSep: T -> bool)
    ensures |NonEmpty(SplitAt(s, isSep))| == Runs(s, isSep)
  {
    if s != [] {
      var rest := SplitAt(s[1..], isSep);
      var parts := SplitAt(s, isSep);
      NonEmptySplitAtCount(s[1..], isSep);
      assert NonEmpty(rest) == (if rest[0] == [] then [] else [rest[0]]) + NonEmpty(rest[1..]);
      // the first part of the rest is empty exactly when the rest is empty or starts with a separator
      assert (rest[0] == []) == (|s| == 1 || isSep(s[1]));
      if isSep(s[0]) {
        assert parts[1..] == rest;
      } else {
        assert parts[1..] == rest[1..];
      }
    }
  }

  /** There are no runs exactly when every element is a separator. */
  lemma {:induction false} RunsZero<T>(s: seq<T>, isSep: T -> bool)
    ensures Runs(s, isSep) == 0 <==> forall i :: 0 <= i < |s| ==> isSep(s[i])
  {
    if s != [] {
      RunsZero(s[1..], isSep);
      if forall i :: 0 <= i < |s[1..]| ==> isSep(s[1..][i]) {
        if isSep(s[0]) {
          forall i | 0 <= i < |s| ensures isSep(s[i]) {
            if i > 0 { assert s[i] == s[1..][i - 1]; }
          }
        } else {
          assert |s| == 1 || isSep(s[1]) by {
            if |s| > 1 { assert s[1] == s[1..][0]; }
          }
        }
      } else {
        var j :| 0 <= j < |s[1..]| && !isSep(s[1..][j]);
        assert !isSep(s[j + 1]);
      }
    }
  }

  /** A separator ends every run before it, so the runs on its two sides
      are counted apart. */
  lemma {:induction false} RunsAroundSeparator<T>(a: seq<T>, x: T, b: seq<T>, isSep: T -> bool)
    requires isSep(x)
    ensures Runs(a + [x] + b, isSep) == Runs(a, isSep) + Runs(b, isSep)
  {
    if a == [] {
      assert a + [x] + b == [x] + b;
      assert ([x] + b)[1..] == b;
    } else {
      RunsAroundSeparator(a[1..], x, b, isSep);
      var s := a + [x] + b;
      assert s[0] == a[0] && s[1..] == a[1..] + [x] + b;
      assert |a| == 1 ==> s[1] == x;
      assert |a| > 1 ==> s[1] == a[1];
    }
  }

  /** A non-empty stretch without separators is a single run. */
  lemma {:induction false} RunsOfStretch<T>(w: seq<T>, isSep: T -> bool)
    requires w != [] && NoneWhere(w, isSep)
    ensures Runs(w, isSep) == 1
  {
    if |w| > 1 {
      assert w[1] == w[1..][0];
      forall i | 0 <= i < |w[1..]| ensures !isSep(w[1..][i]) { assert w[1..][i] == w[i + 1]; }
      RunsOfStretch(w[1..], isSep);
    } else {
      assert w[1..] == [];
    }
  }

  /** Counting separators is additive over concatenation. */
  lemma {:induction false} CountWhereAppend<T>(a: seq<T>, b: seq<T>, isSep: T -> bool)
    ensures CountWhere(a + b, isSep) == CountWhere(a, isSep) + CountWhere(b, isSep)
  {
    if a == [] {
      assert a + b == b;
    } else {
      CountWhereAppend(a[1..], b, isSep);
      assert (a + b)[0] == a[0] && (a + b)[1..] == a[1..] + b;
    }
  }

  /** Dropping the leading separators drops exactly LeadingCount elements. */
  lemma {:induction false} DropWhereLeading<T>(s: seq<T>, isSep: T -> bool)
    ensures DropWhere(s, isSep) == s[LeadingCount(s, isSep)..]
  {
    if s != [] && isSep(s[0]) {
      DropWhereLeading(s[1..], isSep);
      assert s[1..][LeadingCount(s[1..], isSep)..] == s[1 + LeadingCount(s[1..], isSep)..];
    }
  }

  /** Dropping the trailing separators keeps a prefix of `s` and removes
      separators only. */
  lemma {:induction false} DropLastWhereTrailing<T>(s: seq<T>, isSep: T -> bool)
    ensures var r := DropLastWhere(s, isSep); r == s[..|r|] && AllWhere(s[|r|..], isSep)
  {
    if s != [] && isSep(s[|s| - 1]) {
      var init := s[..|s| - 1];
      DropLastWhereTrailing(init, isSep);
      var r := DropLastWhere(init, isSep);
      assert init[..|r|] == s[..|r|];
      assert s[|r|..] == init[|r|..] + [s[|s| - 1]];
    }
  }

  /** Dropping separators at both ends leaves the stretch of `s` after its
      leading separators, followed in `s` by separators only. */
  lemma {:induction false} DropBothEnds<T>(s: seq<T>, isSep: T -> bool)
    ensures var lead := LeadingCount(s, isSep);
      var r := DropLastWhere(DropWhere(s, isSep), isSep);
      lead + |r| <= |s| && r == s[lead..lead + |r|] && AllWhere(s[lead + |r|..], isSep)
  {
    DropWhereLeading(s, isSep);
    var start := DropWhere(s, isSep);
    DropLastWhereTrailing(start, isSep);
    StretchOfSuffix(s, LeadingCount(s, isSep), start, DropLastWhere(start, isSep), isSep);
  }

  /** A prefix `r` of the suffix of `s` from `lead`, followed there by
      separators only, is the stretch of `s` from `lead`. */
  lemma StretchOfSuffix<T>(s: seq<T>, lead: nat, start: seq<T>, r: seq<T>, isSep: T -> bool)
    requires lead <= |s| && start == s[lead..]
    requires |r| <= |start| && r == start[..|r|]
    requires AllWhere(start[|r|..], isSep)
    ensures lead + |r| <= |s| && r == s[lead..lead + |r|] && AllWhere(s[lead + |r|..], isSep)
  {
    assert s[lead + |r|..] == start[|r|..];
  }

  /** Leading separators only add empty parts. */
  lemma {:induction false} NonEmptySplitAtDrop<T>(s: seq<T>, isSep: T -> bool)
    ensures NonEmpty(SplitAt(DropWhere(s, isSep), isSep)) == NonEmpty(SplitAt(s, isSep))
  {
    if s != [] && isSep(s[0]) {
      NonEmptySplitAtDrop(s[1..], isSep);
      var parts := SplitAt(s, isSep);
      assert parts[0] == [];
      assert parts[1..] == SplitAt(s[1..], isSep);
    }
  }

  /** Trailing separators only add empty parts. */
  lemma {:induction false} NonEmptySplitAtDropLast<T>(s: seq<T>, isSep: T -> bool)
    ensures NonEmpty(SplitAt(DropLastWhere(s, isSep), isSep)) == NonEmpty(SplitAt(s, isSep))
    decreases |s|
  {
    if s != [] && isSep(s[|s| - 1]) {
      var init := s[..|s| - 1];
      NonEmptySplitAtDropLast(init, isSep);
      var one: seq<seq<T>> := [[]];
      assert SplitAt(s, isSep) == SplitAt(init, isSep) + one by {
        SplitAtSnoc(init, s[|s| - 1], isSep);
        assert init + [s[|s| - 1]] == s;
      }
      assert NonEmpty(SplitAt(init, isSep) + one) == NonEmpty(SplitAt(init, isSep)) by {
        NonEmptyAppend(SplitAt(init, isSep), one);
        assert NonEmpty(one) == [];
      }
    }
  }

  /** Splitting at runs and at single separators cut the same first part,
      and after it the same non-empty parts. */
  lemma {:induction false} SplitRunsAgree<T>(s: seq<T>, isSep: T -> bool)
    ensures SplitRuns(s, isSep)[0] == SplitAt(s, isSep)[0]
    ensures NonEmpty(SplitRuns(s, isSep)[1..]) == NonEmpty(SplitAt(s, isSep)[1..])
    decreases |s|
  {
    if s != [] {
      var runs := SplitRuns(s, isSep);
      var parts := SplitAt(s, isSep);
      if isSep(s[0]) {
        var d := DropWhere(s[1..], isSep);
        SplitRunsAgree(d, isSep);
        assert runs[1..] == SplitRuns(d, isSep);
        assert parts[1..] == SplitAt(s[1..], isSep);
        NonEmptySplitAtDrop(s[1..], isSep);
        SplitFirstRest(SplitRuns(d, isSep));
        SplitFirstRest(SplitAt(d, isSep));
      } else {
        SplitRunsAgree(s[1..], isSep);
        var rr := SplitRuns(s[1..], isSep);
        var ra := SplitAt(s[1..], isSep);
        assert runs[1..] == rr[1..];
        assert parts[1..] == ra[1..];
      }
    }
  }

  lemma SplitFirstRest<T>(parts: seq<seq<T>>)
    requires |parts| >= 1
    ensures NonEmpty(parts) == (if parts[0] == [] then [] else [parts[0]]) + NonEmpty(parts[1..])
  {
  }

  /** Splitting at runs keeps the same non-empty parts as splitting at every
      single separator. */
  lemma {:induction false} NonEmptySplitRuns<T>(s: seq<T>, isSep: T -> bool)
    ensures NonEmpty(SplitRuns(s, isSep)) == NonEmpty(SplitAt(s, isSep))
  {
    SplitRunsAgree(s, isSep);
    SplitFirstRest(SplitRuns(s, isSep));
    SplitFirstRest(SplitAt(s, isSep));
  }
}
