/**
 * The few java.lang.String operations the thermal profile store relies on,
 * stated over `seq<char>`: `contains`, `replace(target, "")`, `split` on a
 * one-character separator (limit 0), and the chained `a + ":" + b + ...`
 * concatenation that joins fields back together.
 */
module JavaText {

  /** `t` occurs in `s` starting at index `i`. */
  predicate OccursAt(s: string, t: string, i: nat) {
    i + |t| <= |s| && s[i..i + |t|] == t
  }

  /** `s` ends with `t`. */
  predicate EndsWith(s: string, t: string) {
    |t| <= |s| && s[|s| - |t|..] == t
  }

  /** Java's `s.contains(t)`: some occurrence of `t` in `s`. */
  predicate Contains(s: string, t: string)
    decreases |s|
  {
    OccursAt(s, t, 0) || (|s| > 0 && Contains(s[1..], t))
  }

  lemma OccursAtShift(s: string, t: string, i: nat)
    requires |s| > 0
    ensures OccursAt(s, t, i + 1) == OccursAt(s[1..], t, i)
  {
    if i + 1 + |t| <= |s| {
      assert s[i + 1..i + 1 + |t|] == s[1..][i..i + |t|];
    }
  }

  /** The recursive `Contains` finds exactly the occurrences at some index. */
  lemma {:induction false} ContainsIffOccurs(s: string, t: string)
    ensures Contains(s, t) <==> exists i :: 0 <= i <= |s| && OccursAt(s, t, i)
    decreases |s|
  {
    if |s| > 0 {
      ContainsIffOccurs(s[1..], t);
      if Contains(s[1..], t) {
        var i :| 0 <= i <= |s[1..]| && OccursAt(s[1..], t, i);
        OccursAtShift(s, t, i);
        assert OccursAt(s, t, i + 1);
      }
      if i :| 0 <= i <= |s| && OccursAt(s, t, i) {
        if i > 0 {
          OccursAtShift(s, t, i - 1);
          assert OccursAt(s[1..], t, i - 1);
        }
      }
    }
  }

  /**
   * Java's `s.replace(t, "")`: scanning left to right, every occurrence of
   * `t` that does not overlap an earlier removed one is deleted.
   */
  function RemoveAll(s: string, t: string): (r: string)
    requires |t| > 0
    decreases |s|
  {
    if OccursAt(s, t, 0) then RemoveAll(s[|t|..], t)
    else if s == [] then []
    else [s[0]] + RemoveAll(s[1..], t)
  }

  /** Removal never lengthens, and changes nothing where `t` does not occur. */
  lemma {:induction false} RemoveAllShrinks(s: string, t: string)
    requires |t| > 0
    ensures |RemoveAll(s, t)| <= |s|
    ensures !Contains(s, t) ==> RemoveAll(s, t) == s
    decreases |s|
  {
    if OccursAt(s, t, 0) {
      RemoveAllShrinks(s[|t|..], t);
    } else if s != [] {
      RemoveAllShrinks(s[1..], t);
    }
  }

  /**
   * When no occurrence of `t` starts inside the leading part `w`, removal
   * and search both pass over `w` untouched.
   */
  lemma {:induction false} SkipClean(w: string, rest: string, t: string)
    requires |t| > 0
    requires forall i :: 0 <= i < |w| ==> !OccursAt(w + rest, t, i)
    ensures RemoveAll(w + rest, t) == w + RemoveAll(rest, t)
    ensures Contains(w + rest, t) == Contains(rest, t)
    decreases |w|
  {
    if w != [] {
      var s := w + rest;
      assert !OccursAt(s, t, 0);
      assert s[1..] == w[1..] + rest;
      assert RemoveAll(s, t) == [s[0]] + RemoveAll(s[1..], t);
      assert Contains(s, t) == Contains(s[1..], t);
      forall i | 0 <= i < |w[1..]|
        ensures !OccursAt(w[1..] + rest, t, i)
      {
        assert !OccursAt(s, t, i + 1);
        OccursAtShift(s, t, i);
      }
      SkipClean(w[1..], rest, t);
      assert w == [w[0]] + w[1..];
    } else {
      assert w + rest == rest;
    }
  }

  /** An occurrence of `t` at the front is removed whole. */
  lemma MatchAtFront(t: string, rest: string)
    requires |t| > 0
    ensures RemoveAll(t + rest, t) == RemoveAll(rest, t)
    ensures Contains(t + rest, t)
  {
    assert (t + rest)[..|t|] == t;
    assert (t + rest)[|t|..] == rest;
  }

  /** A string that ends with `t` contains `t`. */
  lemma {:induction false} ContainsAtEnd(x: string, t: string)
    ensures Contains(x + t, t)
    decreases |x|
  {
    if x == [] {
      assert (x + t)[0..|t|] == t;
    } else if !OccursAt(x + t, t, 0) {
      assert (x + t)[1..] == x[1..] + t;
      ContainsAtEnd(x[1..], t);
    }
  }

  // ---------------------------------------------------------------------
  // Splitting and joining

  /** Index of the first `c` in `s`. */
  function IndexOf(s: string, c: char): (i: nat)
    requires c in s
    ensures i < |s| && s[i] == c && c !in s[..i]
  {
    if s[0] == c then 0
    else
      assert s == [s[0]] + s[1..];
      1 + IndexOf(s[1..], c)
  }

  /** No field holds the separator. */
  predicate SeparatorFree(fields: seq<string>, sep: char) {
    forall k :: 0 <= k < |fields| ==> sep !in fields[k]
  }

  /** Every field between separators, empty ones included (`split(sep, -1)`). */
  function RawSplit(s: string, sep: char): (r: seq<string>)
    ensures |r| >= 1
    ensures SeparatorFree(r, sep)
    decreases |s|
  {
    if sep !in s then [s]
    else
      var i := IndexOf(s, sep);
      [s[..i]] + RawSplit(s[i + 1..], sep)
  }

  /** Trailing empty fields removed, as `split` with limit 0 does. */
  function DropTrailingEmpty(fields: seq<string>): (r: seq<string>)
    ensures |r| <= |fields| && r == fields[..|r|]
    ensures r == [] || r[|r| - 1] != []
    ensures forall k :: |r| <= k < |fields| ==> fields[k] == []
  {
    if |fields| > 0 && fields[|fields| - 1] == [] then
      DropTrailingEmpty(fields[..|fields| - 1])
    else
      fields
  }

  /**
   * Java's `s.split(sep)` for a separator that is not a regular-expression
   * metacharacter: a string without the separator comes back whole (even
   * the empty string); otherwise the fields, with trailing empty ones
   * dropped.
   */
  function Split(s: string, sep: char): (r: seq<string>)
    ensures SeparatorFree(r, sep)
    ensures sep in s ==> |r| <= |RawSplit(s, sep)| && r == RawSplit(s, sep)[..|r|]
    ensures sep in s ==> forall k :: |r| <= k < |RawSplit(s, sep)| ==> RawSplit(s, sep)[k] == []
    ensures sep in s ==> r == [] || r[|r| - 1] != []
    ensures sep !in s ==> r == [s]
  {
    if sep !in s then [s] else DropTrailingEmpty(RawSplit(s, sep))
  }

  /** `fields[0] + sep + fields[1] + sep + ... + fields[n - 1]`. */
  function Join(fields: seq<string>, sep: char): string {
    if |fields| == 0 then []
    else if |fields| == 1 then fields[0]
    else fields[0] + [sep] + Join(fields[1..], sep)
  }

  /** Splitting with every field kept and joining back gives the input. */
  lemma {:induction false} JoinRawSplit(s: string, sep: char)
    ensures Join(RawSplit(s, sep), sep) == s
    decreases |s|
  {
    if sep in s {
      var i := IndexOf(s, sep);
      var rest := RawSplit(s[i + 1..], sep);
      JoinRawSplit(s[i + 1..], sep);
      assert ([s[..i]] + rest)[1..] == rest;
      assert s == s[..i] + [sep] + s[i + 1..];
    }
  }

  lemma SeparatorAfterFirst(first: string, rest: string, sep: char)
    requires sep !in first
    ensures sep in first + [sep] + rest
    ensures IndexOf(first + [sep] + rest, sep) == |first|
  {
    var s := first + [sep] + rest;
    assert s[|first|] == sep;
    assert s[..|first|] == first;
    assert forall j :: |first| < j <= |s| ==> s[..j][|first|] == sep;
  }

  /** Splitting at a first field free of the separator peels that field off. */
  lemma RawSplitAt(first: string, rest: string, sep: char)
    requires sep !in first
    ensures RawSplit(first + [sep] + rest, sep) == [first] + RawSplit(rest, sep)
  {
    var s := first + [sep] + rest;
    SeparatorAfterFirst(first, rest, sep);
    assert s[..|first|] == first;
    assert s[|first| + 1..] == rest;
  }

  /** Joining fields free of the separator and splitting again gives the fields back. */
  lemma {:induction false} RawSplitJoin(fields: seq<string>, sep: char)
    requires |fields| >= 1
    requires SeparatorFree(fields, sep)
    ensures RawSplit(Join(fields, sep), sep) == fields
    decreases |fields|
  {
    if |fields| > 1 {
      var tail := fields[1..];
      RawSplitAt(fields[0], Join(tail, sep), sep);
      SeparatorFreeTail(fields, sep);
      RawSplitJoin(tail, sep);
      assert fields == [fields[0]] + tail;
    }
  }

  lemma SeparatorFreeTail(fields: seq<string>, sep: char)
    requires |fields| >= 1 && SeparatorFree(fields, sep)
    ensures SeparatorFree(fields[1..], sep)
  {
    forall k | 0 <= k < |fields[1..]| ensures sep !in fields[1..][k] {
      assert fields[1..][k] == fields[k + 1];
    }
  }

  /**
   * `split` undoes the join of at least one separator-free field as long as
   * the last field is not empty (otherwise `split` would drop it).
   */
  lemma SplitJoin(fields: seq<string>, sep: char)
    requires |fields| >= 1
    requires SeparatorFree(fields, sep)
    requires fields[|fields| - 1] != []
    ensures Split(Join(fields, sep), sep) == fields
  {
    if |fields| > 1 {
      SeparatorAfterFirst(fields[0], Join(fields[1..], sep), sep);
      RawSplitJoin(fields, sep);
    }
  }
}
