/**
 * The per-application thermal profile table of ThermalUtils, kept in the
 * preference "thermal_control" as one string: six buckets separated by ':',
 * each a fixed prefix such as "thermal.benchmark=" followed by package names,
 * every one terminated by ','. This module holds the pure logic on that
 * string: validation on read, rewriting a package into a bucket, and the two
 * first-match lookups (profile state and the code written to the thermal
 * control file).
 */
module ProfileStore {
  import opened Wrappers
  import opened JavaText

  /** The only exception this logic can raise: indexing past the split fields. */
  datatype Failure = IndexOutOfBounds(index: int)

  const STATE_DEFAULT := 0
  const STATE_BENCHMARK := 1
  const STATE_BROWSER := 2
  const STATE_CAMERA := 3
  const STATE_DIALER := 4
  const STATE_GAMING := 5
  const STATE_STREAMING := 6

  const THERMAL_STATE_DEFAULT := "0"
  const THERMAL_STATE_BENCHMARK := "10"
  const THERMAL_STATE_BROWSER := "11"
  const THERMAL_STATE_CAMERA := "12"
  const THERMAL_STATE_DIALER := "8"
  const THERMAL_STATE_GAMING := "9"
  const THERMAL_STATE_STREAMING := "14"

  const THERMAL_BENCHMARK := "thermal.benchmark="
  const THERMAL_BROWSER := "thermal.browser="
  const THERMAL_CAMERA := "thermal.camera="
  const THERMAL_DIALER := "thermal.dialer="
  const THERMAL_GAMING := "thermal.gaming="
  const THERMAL_STREAMING := "thermal.streaming="

  /** The bucket prefixes in lookup order. */
  const PREFIXES: seq<string> :=
    [THERMAL_BENCHMARK, THERMAL_BROWSER, THERMAL_CAMERA,
     THERMAL_DIALER, THERMAL_GAMING, THERMAL_STREAMING]

  /** What a bucket entry looks like for a package: `packageName + ","`. */
  function Key(packageName: string): (key: string)
    ensures |key| == |packageName| + 1 && key[|packageName|] == ','
    ensures key[..|packageName|] == packageName
  {
    packageName + [',']
  }

  /** The value written when nothing usable is stored: six empty buckets. */
  function DefaultValue(): string {
    THERMAL_BENCHMARK + ":" + THERMAL_BROWSER + ":" + THERMAL_CAMERA + ":" +
    THERMAL_DIALER + ":" + THERMAL_GAMING + ":" + THERMAL_STREAMING
  }

  // ---------------------------------------------------------------------
  // getValue

  /** The stored value survives validation: present and at least five fields. */
  predicate Accepted(stored: Option<string>) {
    stored.Some? && |Split(stored.value, ':')| >= 5 && stored.value != []
  }

  /**
   * The string getValue returns for what is stored under "thermal_control"
   * (None for a missing preference). A stored value with fewer than five
   * ':'-fields, or an empty one, is replaced by the default; five fields are
   * accepted although the table has six buckets.
   */
  function CheckedValue(stored: Option<string>): (value: string)
    ensures Accepted(stored) ==> value == stored.value
    ensures !Accepted(stored) ==> value == DefaultValue()
    ensures |Split(value, ':')| >= 5
  {
    DefaultIsEmptyTable();
    SplitSerialized(EmptyTable());
    var checked := if stored.Some? && |Split(stored.value, ':')| < 5 then None else stored;
    if checked.None? || checked.value == [] then DefaultValue() else checked.value
  }

  // ---------------------------------------------------------------------
  // writePackage

  /**
   * The value writePackage stores for `value` (what getValue returned):
   * every `packageName + ","` removed, the result split on ':', and the
   * fields then updated and joined by UpdateFields.
   */
  function WritePackageValue(value: string, packageName: string, mode: int): (r: Result<string, Failure>)
    ensures r.Ok? <==> |Split(RemoveAll(value, Key(packageName)), ':')| >= 6
    ensures r.Err? ==>
      var n := |Split(RemoveAll(value, Key(packageName)), ':')|;
      r.error == IndexOutOfBounds(if STATE_BENCHMARK <= mode <= STATE_STREAMING && n <= mode - 1 then mode - 1 else n)
  {
    UpdateFields(Split(RemoveAll(value, Key(packageName)), ':'), packageName, mode)
  }

  /**
   * The switch and the final concatenation of writePackage on the split
   * fields: the key appended to field `mode - 1` for a mode in 1..6 and to
   * none otherwise, and the first six fields joined again. Fewer than six
   * fields is the ArrayIndexOutOfBoundsException of the source: at
   * `mode - 1` in the switch when that index is already missing, otherwise
   * at the first missing index of the concatenation.
   */
  function UpdateFields(modes: seq<string>, packageName: string, mode: int): (r: Result<string, Failure>)
    ensures r.Ok? <==> |modes| >= 6
    ensures r.Err? ==>
      r.error == IndexOutOfBounds(if STATE_BENCHMARK <= mode <= STATE_STREAMING && |modes| <= mode - 1 then mode - 1 else |modes|)
  {
    if STATE_BENCHMARK <= mode <= STATE_STREAMING && |modes| <= mode - 1 then
      Err(IndexOutOfBounds(mode - 1))
    else if |modes| < 6 then
      Err(IndexOutOfBounds(|modes|))
    else
      var updated :=
        if STATE_BENCHMARK <= mode <= STATE_STREAMING then modes[mode - 1 := modes[mode - 1] + Key(packageName)]
        else modes;
      Ok(Join(updated[..6], ':'))
  }

  /** The field written at bucket `k` by writePackage. */
  function UpdatedField(modes: seq<string>, packageName: string, mode: int, k: nat): string
    requires k < |modes|
  {
    if k == mode - 1 then modes[k] + Key(packageName) else modes[k]
  }

  /**
   * For a package name without ':', a successful writePackage writes
   * exactly six ':'-separated fields: the first six fields of the value
   * after removal, the key appended to field `mode - 1` only, and anything
   * beyond the sixth field dropped. (A name holding ':' would add fields.)
   */
  lemma WritesSixFields(value: string, packageName: string, mode: int)
    requires ':' !in packageName
    ensures var r := WritePackageValue(value, packageName, mode);
            var modes := Split(RemoveAll(value, Key(packageName)), ':');
            r.Ok? ==>
              && RawSplit(r.value, ':') == seq(6, k requires 0 <= k < 6 => UpdatedField(modes, packageName, mode, k))
              && |RawSplit(r.value, ':')| == 6
  {
    var modes := Split(RemoveAll(value, Key(packageName)), ':');
    if |modes| >= 6 {
      var updated :=
        if STATE_BENCHMARK <= mode <= STATE_STREAMING then modes[mode - 1 := modes[mode - 1] + Key(packageName)]
        else modes;
      var six := updated[..6];
      assert six == seq(6, k requires 0 <= k < 6 => UpdatedField(modes, packageName, mode, k));
      assert ':' !in Key(packageName);
      RawSplitJoin(six, ':');
    }
  }

  // ---------------------------------------------------------------------
  // getStateForPackage and setThermalProfile

  /**
   * getStateForPackage on the split fields: the first bucket, in the order
   * Benchmark, Browser, Camera, Dialer, Gaming, Streaming, whose text
   * contains `packageName + ","`, or STATE_DEFAULT. Reaching a bucket past
   * the last field is the out-of-bounds exception.
   */
  function StateForModes(modes: seq<string>, packageName: string): (r: Result<int, Failure>)
    ensures r.Ok? ==> STATE_DEFAULT <= r.value <= STATE_STREAMING
    ensures r.Ok? && r.value != STATE_DEFAULT ==>
      && r.value - 1 < |modes|
      && Contains(modes[r.value - 1], Key(packageName))
      && forall k :: 0 <= k < r.value - 1 ==> !Contains(modes[k], Key(packageName))
    ensures r == Ok(STATE_DEFAULT) <==>
      |modes| >= 6 && forall k :: 0 <= k < 6 ==> !Contains(modes[k], Key(packageName))
    ensures r.Err? <==>
      |modes| < 6 && forall k :: 0 <= k < |modes| ==> !Contains(modes[k], Key(packageName))
    ensures r.Err? ==> r.error == IndexOutOfBounds(|modes|)
  {
    var key := Key(packageName);
    if |modes| <= 0 then Err(IndexOutOfBounds(0))
    else if Contains(modes[0], key) then Ok(STATE_BENCHMARK)
    else if |modes| <= 1 then Err(IndexOutOfBounds(1))
    else if Contains(modes[1], key) then Ok(STATE_BROWSER)
    else if |modes| <= 2 then Err(IndexOutOfBounds(2))
    else if Contains(modes[2], key) then Ok(STATE_CAMERA)
    else if |modes| <= 3 then Err(IndexOutOfBounds(3))
    else if Contains(modes[3], key) then Ok(STATE_DIALER)
    else if |modes| <= 4 then Err(IndexOutOfBounds(4))
    else if Contains(modes[4], key) then Ok(STATE_GAMING)
    else if |modes| <= 5 then Err(IndexOutOfBounds(5))
    else if Contains(modes[5], key) then Ok(STATE_STREAMING)
    else Ok(STATE_DEFAULT)
  }

  /** The thermal control code for each profile state. */
  function ThermalCode(state: int): (code: string)
    ensures code in {THERMAL_STATE_DEFAULT, THERMAL_STATE_DIALER, THERMAL_STATE_GAMING, THERMAL_STATE_BENCHMARK,
                     THERMAL_STATE_BROWSER, THERMAL_STATE_CAMERA, THERMAL_STATE_STREAMING}
    ensures code == THERMAL_STATE_DEFAULT <==> !(STATE_BENCHMARK <= state <= STATE_STREAMING)
  {
    if state == STATE_BENCHMARK then THERMAL_STATE_BENCHMARK
    else if state == STATE_BROWSER then THERMAL_STATE_BROWSER
    else if state == STATE_CAMERA then THERMAL_STATE_CAMERA
    else if state == STATE_DIALER then THERMAL_STATE_DIALER
    else if state == STATE_GAMING then THERMAL_STATE_GAMING
    else if state == STATE_STREAMING then THERMAL_STATE_STREAMING
    else THERMAL_STATE_DEFAULT
  }

  /** Distinct profiles are written as distinct codes. */
  lemma ThermalCodeInjective(a: int, b: int)
    requires STATE_DEFAULT <= a <= STATE_STREAMING && STATE_DEFAULT <= b <= STATE_STREAMING
    requires ThermalCode(a) == ThermalCode(b)
    ensures a == b
  {
  }

  /**
   * The code setThermalProfile writes, computed by its own chain of lookups
   * over the split fields; it always agrees with getStateForPackage, and
   * fails with the same exception where that one does.
   */
  function ThermalCodeForModes(modes: seq<string>, packageName: string): (r: Result<string, Failure>)
    ensures var s := StateForModes(modes, packageName);
            && (s.Ok? ==> r == Ok(ThermalCode(s.value)))
            && (s.Err? ==> r == Err(s.error))
  {
    var key := Key(packageName);
    if |modes| <= 0 then Err(IndexOutOfBounds(0))
    else if Contains(modes[0], key) then Ok(THERMAL_STATE_BENCHMARK)
    else if |modes| <= 1 then Err(IndexOutOfBounds(1))
    else if Contains(modes[1], key) then Ok(THERMAL_STATE_BROWSER)
    else if |modes| <= 2 then Err(IndexOutOfBounds(2))
    else if Contains(modes[2], key) then Ok(THERMAL_STATE_CAMERA)
    else if |modes| <= 3 then Err(IndexOutOfBounds(3))
    else if Contains(modes[3], key) then Ok(THERMAL_STATE_DIALER)
    else if |modes| <= 4 then Err(IndexOutOfBounds(4))
    else if Contains(modes[4], key) then Ok(THERMAL_STATE_GAMING)
    else if |modes| <= 5 then Err(IndexOutOfBounds(5))
    else if Contains(modes[5], key) then Ok(THERMAL_STATE_STREAMING)
    else Ok(THERMAL_STATE_DEFAULT)
  }

  // ---------------------------------------------------------------------
  // The table behind a well-formed value

  /** A bucket's package list as text: every name followed by ','. */
  function Entries(names: seq<string>): string {
    if names == [] then [] else names[0] + [','] + Entries(names[1..])
  }

  /** The fields of a table: each bucket's prefix followed by its entries. */
  function Fields(prefixes: seq<string>, table: seq<seq<string>>): (fields: seq<string>)
    requires |prefixes| == |table|
    ensures |fields| == |table|
    ensures forall k :: 0 <= k < |table| ==> fields[k] == prefixes[k] + Entries(table[k])
  {
    if table == [] then [] else [prefixes[0] + Entries(table[0])] + Fields(prefixes[1..], table[1..])
  }

  /** The stored text of a six-bucket table. */
  function Serialize(table: seq<seq<string>>): string
    requires |table| == 6
  {
    Join(Fields(PREFIXES, table), ':')
  }

  function EmptyTable(): seq<seq<string>> {
    [[], [], [], [], [], []]
  }

  /** A bucket prefix: non-empty, ends with '=', no ',' and no ':'. */
  predicate IsPrefix(w: string) {
    |w| > 0 && w[|w| - 1] == '=' && ',' !in w && ':' !in w
  }

  /** Package names holding no ',' and no ':'. */
  predicate CleanNames(names: seq<string>) {
    forall n :: n in names ==> ',' !in n && ':' !in n
  }

  /** Six package lists of clean names. */
  predicate IsTable(table: seq<seq<string>>) {
    |table| == 6 && forall k :: 0 <= k < |table| ==> CleanNames(table[k])
  }

  /** A package name that cannot collide with the separators or a prefix. */
  predicate IsPackageName(p: string) {
    ',' !in p && ':' !in p && '=' !in p
  }

  /** `p` is no proper suffix of a stored name (the limit of substring matching). */
  predicate NoProperSuffix(table: seq<seq<string>>, p: string) {
    forall k :: 0 <= k < |table| ==> NoProperSuffixIn(table[k], p)
  }

  predicate NoProperSuffixIn(names: seq<string>, p: string) {
    forall n :: n in names ==> n == p || !EndsWith(n, p)
  }

  /** A bucket's names without `p`. */
  function Without(names: seq<string>, p: string): (r: seq<string>)
    ensures forall n :: n in r <==> n in names && n != p
  {
    if names == [] then []
    else (if names[0] == p then [] else [names[0]]) + Without(names[1..], p)
  }

  /** The table with `p` removed from every bucket. */
  function Filter(table: seq<seq<string>>, p: string): (r: seq<seq<string>>)
    ensures |r| == |table|
  {
    seq(|table|, k requires 0 <= k < |table| => Without(table[k], p))
  }

  /**
   * The table writePackage is meant to produce: `p` taken out of every
   * bucket and listed in bucket `mode - 1` alone (in none for a mode outside
   * 1..6), every other name kept where it was.
   */
  function Assign(table: seq<seq<string>>, p: string, mode: int): (r: seq<seq<string>>)
    requires |table| == 6
    ensures |r| == 6
    ensures forall k :: 0 <= k < 6 ==> (p in r[k] <==> k == mode - 1)
    ensures forall k, n :: 0 <= k < 6 && n != p ==> (n in r[k] <==> n in table[k])
  {
    seq(6, k requires 0 <= k < 6 => Without(table[k], p) + (if k == mode - 1 then [p] else []))
  }

  lemma PrefixesAreWellFormed()
    ensures |PREFIXES| == 6
    ensures forall k :: 0 <= k < 6 ==> IsPrefix(PREFIXES[k])
  {
    assert IsPrefix(THERMAL_BENCHMARK);
    assert IsPrefix(THERMAL_BROWSER);
    assert IsPrefix(THERMAL_CAMERA);
    assert IsPrefix(THERMAL_DIALER);
    assert IsPrefix(THERMAL_GAMING);
    assert IsPrefix(THERMAL_STREAMING);
  }

  /** The default value is the text of the table with six empty buckets. */
  lemma DefaultIsEmptyTable()
    ensures DefaultValue() == Serialize(EmptyTable())
  {
    var f := Fields(PREFIXES, EmptyTable());
    forall k | 0 <= k < 6
      ensures f[k] == PREFIXES[k]
    {
      assert Entries(EmptyTable()[k]) == [];
      assert PREFIXES[k] + [] == PREFIXES[k];
    }
    assert f == PREFIXES;
    JoinSix(THERMAL_BENCHMARK, THERMAL_BROWSER, THERMAL_CAMERA, THERMAL_DIALER, THERMAL_GAMING, THERMAL_STREAMING, ':');
  }

  /** Joining six fields is the chained concatenation the source writes out. */
  lemma JoinSix(a: string, b: string, c: string, d: string, e: string, f: string, sep: char)
    ensures Join([a, b, c, d, e, f], sep) == a + [sep] + b + [sep] + c + [sep] + d + [sep] + e + [sep] + f
  {
    var fs := [a, b, c, d, e, f];
    assert fs[1..] == [b, c, d, e, f];
    assert fs[2..] == [c, d, e, f];
    assert fs[3..] == [d, e, f];
    assert fs[4..] == [e, f];
    assert Join(fs[4..], sep) == e + [sep] + f;
    assert Join(fs[3..], sep) == d + [sep] + (e + [sep] + f);
    assert Join(fs[2..], sep) == c + [sep] + (d + [sep] + (e + [sep] + f));
    assert Join(fs[1..], sep) == b + [sep] + (c + [sep] + (d + [sep] + (e + [sep] + f)));
  }

  lemma {:induction false} EntriesAppend(names: seq<string>, p: string)
    ensures Entries(names + [p]) == Entries(names) + Key(p)
    decreases |names|
  {
    if names != [] {
      assert (names + [p])[1..] == names[1..] + [p];
      EntriesAppend(names[1..], p);
    } else {
      assert Entries([p]) == p + [','] + Entries([]);
    }
  }

  lemma {:induction false} EntriesAvoid(names: seq<string>, c: char)
    requires c != ','
    requires forall n :: n in names ==> c !in n
    ensures c !in Entries(names)
    decreases |names|
  {
    if names != [] {
      EntriesAvoid(names[1..], c);
    }
  }

  /** `split(":")` recovers the fields of a table. */
  lemma SplitSerialized(table: seq<seq<string>>)
    requires IsTable(table)
    ensures Split(Serialize(table), ':') == Fields(PREFIXES, table)
  {
    PrefixesAreWellFormed();
    var f := Fields(PREFIXES, table);
    forall k | 0 <= k < 6
      ensures ':' !in f[k]
    {
      EntriesAvoid(table[k], ':');
    }
    SplitJoin(f, ':');
  }

  /** No occurrence of a key starts inside a bucket prefix. */
  lemma PrefixClean(w: string, rest: string, p: string)
    requires IsPrefix(w) && IsPackageName(p)
    ensures forall i :: 0 <= i < |w| ==> !OccursAt(w + rest, Key(p), i)
  {
    var s, key := w + rest, Key(p);
    forall i | 0 <= i < |w|
      ensures !OccursAt(s, key, i)
    {
      if i + |key| <= |s| {
        var slice := s[i..i + |key|];
        if i + |p| < |w| {
          assert slice[|p|] == w[i + |p|] != key[|p|];
        } else {
          assert slice[|w| - 1 - i] == '=';
          assert key[|w| - 1 - i] == p[|w| - 1 - i] != '=';
        }
      }
    }
  }

  /** No occurrence of the key starts inside an entry whose name does not end with `p`. */
  lemma EntryClean(n: string, p: string, rest: string)
    requires ',' !in n && IsPackageName(p) && !EndsWith(n, p)
    ensures forall i :: 0 <= i < |n + [',']| ==> !OccursAt(n + [','] + rest, Key(p), i)
  {
    var s, key := n + [','] + rest, Key(p);
    forall i | 0 <= i < |n + [',']|
      ensures !OccursAt(s, key, i)
    {
      if i + |key| <= |s| {
        var slice := s[i..i + |key|];
        var d := |n| - i;
        if d < |p| {
          assert slice[d] == ',' != key[d];
        } else if d > |p| {
          assert slice[|p|] == n[i + |p|] != key[|p|];
        } else {
          assert slice[..|p|] == n[i..] != p;
        }
      }
    }
  }

  /** A ':' never starts an occurrence of a key. */
  lemma ColonClean(rest: string, p: string)
    requires IsPackageName(p)
    ensures forall i :: 0 <= i < 1 ==> !OccursAt([':'] + rest, Key(p), i)
  {
    var key := Key(p);
    assert key[0] != ':' by {
      if |p| > 0 { assert key[0] == p[0]; }
    }
    if |key| <= |rest| + 1 {
      assert ([':'] + rest)[0..|key|][0] == ':';
    }
  }

  /** One entry at the front: removed if it is `p`, passed over otherwise. */
  lemma EntryStep(n: string, p: string, tail: string)
    requires ',' !in n && IsPackageName(p) && (n == p || !EndsWith(n, p))
    ensures RemoveAll(n + [','] + tail, Key(p))
            == (if n == p then [] else n + [',']) + RemoveAll(tail, Key(p))
    ensures n != p ==> Contains(n + [','] + tail, Key(p)) == Contains(tail, Key(p))
  {
    if n == p {
      MatchAtFront(Key(p), tail);
      assert [] + RemoveAll(tail, Key(p)) == RemoveAll(tail, Key(p));
    } else {
      EntryClean(n, p, tail);
      SkipClean(n + [','], tail, Key(p));
    }
  }

  /**
   * Removing the key from a run of entries drops exactly the entries named
   * `p` and leaves the text after them to be scanned on its own.
   */
  lemma {:induction false} RemoveFromEntries(names: seq<string>, p: string, rest: string)
    requires IsPackageName(p)
    requires CleanNames(names) && NoProperSuffixIn(names, p)
    ensures RemoveAll(Entries(names) + rest, Key(p)) == Entries(Without(names, p)) + RemoveAll(rest, Key(p))
    ensures p !in names ==> Contains(Entries(names) + rest, Key(p)) == Contains(rest, Key(p))
    decreases |names|
  {
    if names == [] {
      assert Entries(names) + rest == rest;
      assert Entries(Without(names, p)) + RemoveAll(rest, Key(p)) == RemoveAll(rest, Key(p));
    } else {
      var n, tail := names[0], Entries(names[1..]) + rest;
      EntriesPeel(names, p, rest);
      assert CleanNames(names[1..]) && NoProperSuffixIn(names[1..], p);
      RemoveFromEntries(names[1..], p, rest);
      EntryStep(n, p, tail);
    }
  }

  /**
   * The text of a non-empty run of entries followed by `rest`, and the
   * entries kept by Without, with the first entry peeled off.
   */
  lemma EntriesPeel(names: seq<string>, p: string, rest: string)
    requires names != []
    ensures Entries(names) + rest == names[0] + [','] + (Entries(names[1..]) + rest)
    ensures Entries(Without(names, p)) + RemoveAll(rest, Key(p))
            == (if names[0] == p then [] else names[0] + [','])
               + (Entries(Without(names[1..], p)) + RemoveAll(rest, Key(p)))
  {
    AppendAssoc(names[0] + [','], Entries(names[1..]), rest);
    var kept := Without(names[1..], p);
    if names[0] == p {
      assert Without(names, p) == [] + kept == kept;
    } else {
      assert Without(names, p) == [names[0]] + kept;
      assert Entries(Without(names, p)) == (names[0] + [',']) + Entries(kept);
      AppendAssoc(names[0] + [','], Entries(kept), RemoveAll(rest, Key(p)));
    }
  }

  lemma AppendAssoc(a: string, b: string, c: string)
    ensures (a + b) + c == a + (b + c)
  {
  }

  /** One bucket at the front: its prefix is kept and its entries lose `p`. */
  lemma FieldStep(w: string, names: seq<string>, p: string, rest: string)
    requires IsPrefix(w) && IsPackageName(p)
    requires CleanNames(names) && NoProperSuffixIn(names, p)
    ensures RemoveAll(w + Entries(names) + rest, Key(p)) == w + Entries(Without(names, p)) + RemoveAll(rest, Key(p))
  {
    assert w + Entries(names) + rest == w + (Entries(names) + rest);
    PrefixClean(w, Entries(names) + rest, p);
    SkipClean(w, Entries(names) + rest, Key(p));
    RemoveFromEntries(names, p, rest);
  }

  /** A ':' at the front is kept. */
  lemma ColonStep(tail: string, p: string)
    requires IsPackageName(p)
    ensures RemoveAll([':'] + tail, Key(p)) == [':'] + RemoveAll(tail, Key(p))
  {
    ColonClean(tail, p);
    SkipClean([':'], tail, Key(p));
  }

  /**
   * Removing the key from the text of a table gives the text of the table
   * without `p`, provided `p` is no proper suffix of a stored name.
   */
  lemma {:induction false} RemoveFromFields(prefixes: seq<string>, table: seq<seq<string>>, p: string)
    requires |prefixes| == |table| >= 1
    requires forall k :: 0 <= k < |prefixes| ==> IsPrefix(prefixes[k])
    requires forall k :: 0 <= k < |table| ==> CleanNames(table[k]) && NoProperSuffixIn(table[k], p)
    requires IsPackageName(p)
    ensures RemoveAll(Join(Fields(prefixes, table), ':'), Key(p)) == Join(Fields(prefixes, Filter(table, p)), ':')
    decreases |table|
  {
    var w, names := prefixes[0], table[0];
    FilterPeel(table, p);
    if |table| == 1 {
      FieldStep(w, names, p, []);
      assert w + Entries(names) + [] == Fields(prefixes, table)[0];
      assert w + Entries(Without(names, p)) + [] == Fields(prefixes, Filter(table, p))[0];
    } else {
      var tailText := Join(Fields(prefixes[1..], table[1..]), ':');
      JoinFieldsPeel(prefixes, table);
      JoinFieldsPeel(prefixes, Filter(table, p));
      FieldStep(w, names, p, [':'] + tailText);
      ColonStep(tailText, p);
      TailsStayClean(prefixes, table, p);
      RemoveFromFields(prefixes[1..], table[1..], p);
    }
  }

  /** The first bucket of the filtered table, and the filter of the rest. */
  lemma FilterPeel(table: seq<seq<string>>, p: string)
    requires |table| >= 1
    ensures Filter(table, p)[0] == Without(table[0], p)
    ensures Filter(table, p)[1..] == Filter(table[1..], p)
  {
  }

  /** The text of a table of two or more buckets: the first field, ':', the text of the rest. */
  lemma JoinFieldsPeel(prefixes: seq<string>, table: seq<seq<string>>)
    requires |prefixes| == |table| >= 2
    ensures Join(Fields(prefixes, table), ':')
            == prefixes[0] + Entries(table[0]) + ([':'] + Join(Fields(prefixes[1..], table[1..]), ':'))
  {
    var f := Fields(prefixes, table);
    assert f[1..] == Fields(prefixes[1..], table[1..]);
  }

  lemma TailsStayClean(prefixes: seq<string>, table: seq<seq<string>>, p: string)
    requires |prefixes| == |table| >= 1
    requires forall k :: 0 <= k < |prefixes| ==> IsPrefix(prefixes[k])
    requires forall k :: 0 <= k < |table| ==> CleanNames(table[k]) && NoProperSuffixIn(table[k], p)
    ensures forall k :: 0 <= k < |prefixes[1..]| ==> IsPrefix(prefixes[1..][k])
    ensures forall k :: 0 <= k < |table[1..]| ==> CleanNames(table[1..][k]) && NoProperSuffixIn(table[1..][k], p)
  {
    forall k | 0 <= k < |table[1..]|
      ensures CleanNames(table[1..][k]) && NoProperSuffixIn(table[1..][k], p)
    {
      assert table[1..][k] == table[k + 1];
    }
    forall k | 0 <= k < |prefixes[1..]|
      ensures IsPrefix(prefixes[1..][k])
    {
      assert prefixes[1..][k] == prefixes[k + 1];
    }
  }

  /** A bucket that does not list `p` does not contain its key. */
  lemma FieldLacksKey(w: string, names: seq<string>, p: string)
    requires IsPrefix(w) && IsPackageName(p) && p !in names
    requires CleanNames(names) && NoProperSuffixIn(names, p)
    ensures !Contains(w + Entries(names), Key(p))
  {
    PrefixClean(w, Entries(names), p);
    SkipClean(w, Entries(names), Key(p));
    RemoveFromEntries(names, p, []);
    assert Entries(names) + [] == Entries(names);
  }

  // ---------------------------------------------------------------------
  // The round trip

  /**
   * On the text of a table, writePackage succeeds and writes the text of
   * the table with `p` moved to bucket `mode - 1` (or dropped).
   */
  lemma WritePackageOnTable(table: seq<seq<string>>, p: string, mode: int)
    requires IsTable(table) && IsPackageName(p) && NoProperSuffix(table, p)
    ensures WritePackageValue(Serialize(table), p, mode) == Ok(Serialize(Assign(table, p, mode)))
  {
    PrefixesAreWellFormed();
    RemoveFromFields(PREFIXES, table, p);
    FilterIsTable(table, p);
    SplitSerialized(Filter(table, p));
    AssignedFields(table, p, mode);
  }

  lemma FilterIsTable(table: seq<seq<string>>, p: string)
    requires IsTable(table)
    ensures IsTable(Filter(table, p))
  {
    var filtered := Filter(table, p);
    forall k | 0 <= k < 6
      ensures CleanNames(filtered[k])
    {
      assert CleanNames(table[k]);
    }
  }

  /** The fields of the assigned table: the filtered fields, the key appended to field `mode - 1`. */
  lemma AssignedFields(table: seq<seq<string>>, p: string, mode: int)
    requires |table| == 6
    ensures var modes := Fields(PREFIXES, Filter(table, p));
            var updated :=
              if STATE_BENCHMARK <= mode <= STATE_STREAMING then modes[mode - 1 := modes[mode - 1] + Key(p)]
              else modes;
            Fields(PREFIXES, Assign(table, p, mode)) == updated[..6]
  {
    var modes := Fields(PREFIXES, Filter(table, p));
    var updated :=
      if STATE_BENCHMARK <= mode <= STATE_STREAMING then modes[mode - 1 := modes[mode - 1] + Key(p)]
      else modes;
    forall k | 0 <= k < 6
      ensures updated[k] == Fields(PREFIXES, Assign(table, p, mode))[k]
    {
      AssignedField(table, p, mode, k);
    }
  }

  /** Bucket `k` of the assigned table is the filtered bucket, plus the key at `mode - 1`. */
  lemma AssignedField(table: seq<seq<string>>, p: string, mode: int, k: nat)
    requires |table| == 6 && k < 6
    ensures Fields(PREFIXES, Assign(table, p, mode))[k]
            == Fields(PREFIXES, Filter(table, p))[k] + (if k == mode - 1 then Key(p) else [])
  {
    var kept := Without(table[k], p);
    var moved := Assign(table, p, mode);
    var filtered := Filter(table, p);
    assert filtered[k] == kept;
    var g := Fields(PREFIXES, filtered)[k];
    assert g == PREFIXES[k] + Entries(kept);
    assert Fields(PREFIXES, moved)[k] == PREFIXES[k] + Entries(moved[k]);
    if k == mode - 1 {
      assert moved[k] == kept + [p];
      EntriesAppend(kept, p);
      AppendAssoc(PREFIXES[k], Entries(kept), Key(p));
    } else {
      assert moved[k] == kept + [] == kept;
      assert g + [] == g;
    }
  }

  /**
   * Read after write: once writePackage has stored its value, getValue
   * hands it back unchanged and getStateForPackage finds `p` in bucket
   * `mode - 1`, or nowhere (STATE_DEFAULT) for a mode outside 1..6.
   */
  lemma ReadAfterWrite(table: seq<seq<string>>, p: string, mode: int)
    requires IsTable(table) && IsPackageName(p) && NoProperSuffix(table, p)
    ensures var w := WritePackageValue(Serialize(table), p, mode);
            && w.Ok?
            && CheckedValue(Some(w.value)) == w.value
            && StateForModes(Split(CheckedValue(Some(w.value)), ':'), p)
               == Ok(if STATE_BENCHMARK <= mode <= STATE_STREAMING then mode else STATE_DEFAULT)
  {
    WritePackageOnTable(table, p, mode);
    AssignIsTable(table, p, mode);
    SerializedIsAccepted(Assign(table, p, mode));
    StateForAssigned(table, p, mode);
  }

  /** getValue hands the text of a table back unchanged, and `split` recovers its fields. */
  lemma SerializedIsAccepted(table: seq<seq<string>>)
    requires IsTable(table)
    ensures CheckedValue(Some(Serialize(table))) == Serialize(table)
    ensures Split(Serialize(table), ':') == Fields(PREFIXES, table)
  {
    SplitSerialized(table);
  }

  lemma AssignIsTable(table: seq<seq<string>>, p: string, mode: int)
    requires IsTable(table) && IsPackageName(p)
    ensures IsTable(Assign(table, p, mode))
  {
    var moved := Assign(table, p, mode);
    forall k | 0 <= k < 6
      ensures CleanNames(moved[k])
    {
      assert CleanNames(table[k]);
    }
  }

  /** getStateForPackage on the fields of the assigned table finds `mode`. */
  lemma StateForAssigned(table: seq<seq<string>>, p: string, mode: int)
    requires IsTable(table) && IsPackageName(p) && NoProperSuffix(table, p)
    ensures StateForModes(Fields(PREFIXES, Assign(table, p, mode)), p)
            == Ok(if STATE_BENCHMARK <= mode <= STATE_STREAMING then mode else STATE_DEFAULT)
  {
    var modes := Fields(PREFIXES, Assign(table, p, mode));
    forall k | 0 <= k < 6
      ensures Contains(modes[k], Key(p)) <==> k == mode - 1
    {
      AssignedBucketHasKey(table, p, mode, k);
    }
    StateForUniqueMatch(modes, p, mode);
  }

  /** Six fields of which only field `mode - 1` contains the key: the lookup reports `mode`. */
  lemma StateForUniqueMatch(modes: seq<string>, p: string, mode: int)
    requires |modes| == 6
    requires forall k :: 0 <= k < 6 ==> (Contains(modes[k], Key(p)) <==> k == mode - 1)
    ensures StateForModes(modes, p) == Ok(if STATE_BENCHMARK <= mode <= STATE_STREAMING then mode else STATE_DEFAULT)
  {
    var r := StateForModes(modes, p);
    if STATE_BENCHMARK <= mode <= STATE_STREAMING {
      assert Contains(modes[mode - 1], Key(p));
    } else {
      assert r == Ok(STATE_DEFAULT);
    }
  }

  /** Only bucket `mode - 1` of the assigned table contains the key of `p`. */
  lemma AssignedBucketHasKey(table: seq<seq<string>>, p: string, mode: int, k: nat)
    requires IsTable(table) && IsPackageName(p) && NoProperSuffix(table, p) && k < 6
    ensures Contains(Fields(PREFIXES, Assign(table, p, mode))[k], Key(p)) <==> k == mode - 1
  {
    PrefixesAreWellFormed();
    AssignedField(table, p, mode, k);
    var kept := Without(table[k], p);
    assert CleanNames(table[k]) && NoProperSuffixIn(table[k], p);
    assert p !in kept && CleanNames(kept) && NoProperSuffixIn(kept, p);
    var field := PREFIXES[k] + Entries(kept);
    assert Fields(PREFIXES, Filter(table, p))[k] == field;
    if k == mode - 1 {
      ContainsAtEnd(field, Key(p));
    } else {
      FieldLacksKey(PREFIXES[k], kept, p);
      assert field + [] == field;
    }
  }

  /**
   * The same round trip from whatever is stored: when getValue resolves the
   * stored preference to the text of a table (the default is the empty
   * table), writing `p` and reading it back yields `mode` for 1..6 and
   * STATE_DEFAULT otherwise.
   */
  lemma RoundTrip(stored: Option<string>, table: seq<seq<string>>, p: string, mode: int)
    requires IsTable(table) && IsPackageName(p) && NoProperSuffix(table, p)
    requires CheckedValue(stored) == Serialize(table)
    ensures var w := WritePackageValue(CheckedValue(stored), p, mode);
            && w.Ok?
            && StateForModes(Split(CheckedValue(Some(w.value)), ':'), p)
               == Ok(if STATE_BENCHMARK <= mode <= STATE_STREAMING then mode else STATE_DEFAULT)
  {
    ReadAfterWrite(table, p, mode);
  }

  /** With nothing stored yet, the round trip holds for every package name. */
  lemma RoundTripFromEmptyStore(p: string, mode: int)
    requires IsPackageName(p)
    ensures var w := WritePackageValue(CheckedValue(None), p, mode);
            && w.Ok?
            && StateForModes(Split(CheckedValue(Some(w.value)), ':'), p)
               == Ok(if STATE_BENCHMARK <= mode <= STATE_STREAMING then mode else STATE_DEFAULT)
  {
    DefaultIsEmptyTable();
    RoundTrip(None, EmptyTable(), p, mode);
  }

  // ---------------------------------------------------------------------
  // The five-field quirk

  lemma {:induction false} MissingCharNotContained(s: string, t: string, c: char)
    requires c in t && c !in s
    ensures !Contains(s, t)
    decreases |s|
  {
    if |t| <= |s| {
      var j :| 0 <= j < |t| && t[j] == c;
      assert s[..|t|][j] == s[j] != c;
    }
    if |s| > 0 {
      MissingCharNotContained(s[1..], t, c);
    }
  }

  /**
   * getValue accepts a stored value with five fields, and writePackage then
   * fails indexing the sixth bucket, whatever the mode: the out-of-bounds
   * exception is reached from a value the validation let through.
   */
  lemma FiveFieldsPassValidationButBreakWrite(mode: int)
    ensures var v := "a:b:c:d:e";
            && CheckedValue(Some(v)) == v
            && WritePackageValue(v, "x", mode) == Err(IndexOutOfBounds(5))
  {
    FiveFieldsSplit();
    FiveFieldsLackKey();
    FiveAfterRemovalFails("a:b:c:d:e", "x", mode);
  }

  /** Five fields left after removal fail at index 5 for every mode. */
  lemma FiveAfterRemovalFails(value: string, packageName: string, mode: int)
    requires |Split(RemoveAll(value, Key(packageName)), ':')| == 5
    ensures WritePackageValue(value, packageName, mode) == Err(IndexOutOfBounds(5))
  {
    var r := WritePackageValue(value, packageName, mode);
    assert r.Err?;
    assert r.error == IndexOutOfBounds(5);
  }

  lemma FiveFieldsSplit()
    ensures Split("a:b:c:d:e", ':') == ["a", "b", "c", "d", "e"]
  {
    var fields := ["a", "b", "c", "d", "e"];
    JoinFive("a", "b", "c", "d", "e", ':');
    assert Join(fields, ':') == "a:b:c:d:e";
    SplitJoin(fields, ':');
  }

  lemma FiveFieldsLackKey()
    ensures RemoveAll("a:b:c:d:e", Key("x")) == "a:b:c:d:e"
  {
    MissingCharNotContained("a:b:c:d:e", Key("x"), ',');
    RemoveAllShrinks("a:b:c:d:e", Key("x"));
  }

  lemma JoinFive(a: string, b: string, c: string, d: string, e: string, sep: char)
    ensures Join([a, b, c, d, e], sep) == a + [sep] + b + [sep] + c + [sep] + d + [sep] + e
  {
    var fs := [a, b, c, d, e];
    assert fs[1..] == [b, c, d, e];
    assert fs[2..] == [c, d, e];
    assert fs[3..] == [d, e];
    assert Join(fs[3..], sep) == d + [sep] + e;
    assert Join(fs[2..], sep) == c + [sep] + (d + [sep] + e);
    assert Join(fs[1..], sep) == b + [sep] + (c + [sep] + (d + [sep] + e));
  }
}
