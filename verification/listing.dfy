/**
 The listing renderer (`LSDisplay`): it orders the entries by
 lower-cased name, reversed on `-r`, and writes them out, leaving out
 hidden entries unless `-a` is given, each in short or long form.
 */
module Listing {
  import opened Basics
  import opened Text
  import opened Ansi
  import opened Files
  import opened Arguments

  // ---------------------------------------------------------------------
  // Sort key, order and stability
  // ---------------------------------------------------------------------

  /** The sort key: the entry's name, lower-cased. */
  function Key(e: FileInfo): string {
    Lower(e.name)
  }

  predicate KeyLe(x: FileInfo, y: FileInfo) {
    LexLe(Key(x), Key(y))
  }

  /** Ordered non-decreasingly by key. */
  predicate Sorted(s: seq<FileInfo>) {
    forall i, j :: 0 <= i < j < |s| ==> KeyLe(s[i], s[j])
  }

  /** The entries of `s` whose key is `k`, in the order they appear in `s`. */
  function WithKey(s: seq<FileInfo>, k: string): (r: seq<FileInfo>)
    ensures forall y :: y in r ==> y in s && Key(y) == k
    decreases |s|
  {
    if |s| == 0 then []
    else (if Key(s[0]) == k then [s[0]] else []) + WithKey(s[1..], k)
  }

  /** `t` keeps, for every key, the relative order the entries with that key have in `s`. */
  ghost predicate StableWrt(s: seq<FileInfo>, t: seq<FileInfo>) {
    forall k :: WithKey(t, k) == WithKey(s, k)
  }

  lemma {:induction false} WithKeyAppend(a: seq<FileInfo>, b: seq<FileInfo>, k: string)
    ensures WithKey(a + b, k) == WithKey(a, k) + WithKey(b, k)
    decreases |a|
  {
    if |a| == 0 {
      assert a + b == b;
    } else {
      assert (a + b)[1..] == a[1..] + b;
      WithKeyAppend(a[1..], b, k);
    }
  }

  lemma SortedCons(x: FileInfo, s: seq<FileInfo>)
    requires Sorted(s)
    requires forall y :: y in s ==> KeyLe(x, y)
    ensures Sorted([x] + s)
  {
    var r := [x] + s;
    forall i, j | 0 <= i < j < |r|
      ensures KeyLe(r[i], r[j])
    {
      if i == 0 {
        assert r[j] == s[j - 1];
      } else {
        assert r[i] == s[i - 1] && r[j] == s[j - 1];
      }
    }
  }

  lemma SortedTail(s: seq<FileInfo>)
    requires Sorted(s) && |s| > 0
    ensures Sorted(s[1..])
    ensures forall y :: y in s[1..] ==> KeyLe(s[0], y)
  {
    forall y | y in s[1..]
      ensures KeyLe(s[0], y)
    {
      var j :| 0 <= j < |s[1..]| && s[1..][j] == y;
      assert s[j + 1] == y;
    }
  }

  /** Inserts `x` before the first entry whose key is not smaller, so ahead of entries with an equal key. */
  function Insert(x: FileInfo, t: seq<FileInfo>): (r: seq<FileInfo>)
    ensures multiset(r) == multiset{x} + multiset(t)
    ensures forall y :: y in r <==> y == x || y in t
    ensures Sorted(t) ==> Sorted(r)
    decreases |t|
  {
    if |t| == 0 || KeyLe(x, t[0]) then
      var r := [x] + t;
      assert r[1..] == t;
      assert Sorted(t) ==> Sorted(r) by {
        if Sorted(t) && |t| > 0 {
          forall y | y in t
            ensures KeyLe(x, y)
          {
            var j :| 0 <= j < |t| && t[j] == y;
            if j > 0 {
              LexLeTrans(Key(x), Key(t[0]), Key(y));
            }
          }
          SortedCons(x, t);
        }
      }
      r
    else
      var rest := Insert(x, t[1..]);
      var r := [t[0]] + rest;
      assert t == [t[0]] + t[1..];
      assert Sorted(t) ==> Sorted(r) by {
        if Sorted(t) {
          SortedTail(t);
          LexLeTotal(Key(x), Key(t[0]));
          SortedCons(t[0], rest);
        }
      }
      r
  }

  /**
   Inserting puts `x` ahead of every entry of `t` with the same key, and
   leaves the order among `t`'s entries alone.
   */
  lemma WithKeyCons(x: FileInfo, s: seq<FileInfo>, k: string)
    ensures WithKey([x] + s, k) == (if Key(x) == k then [x] else []) + WithKey(s, k)
  {
    assert ([x] + s)[1..] == s;
  }

  lemma {:induction false} InsertWithKey(x: FileInfo, t: seq<FileInfo>, k: string)
    ensures WithKey(Insert(x, t), k) == (if Key(x) == k then [x] else []) + WithKey(t, k)
    decreases |t|
  {
    if |t| == 0 || KeyLe(x, t[0]) {
      assert Insert(x, t) == [x] + t;
      WithKeyCons(x, t, k);
    } else {
      var rest := Insert(x, t[1..]);
      var mine := if Key(x) == k then [x] else [];
      var theirs := if Key(t[0]) == k then [t[0]] else [];
      assert Insert(x, t) == [t[0]] + rest;
      WithKeyCons(t[0], rest, k);
      InsertWithKey(x, t[1..], k);
      assert mine == [] || theirs == [] by {
        if Key(x) == k && Key(t[0]) == k {
          LexLeRefl(Key(x));
        }
      }
      SwapHeads(mine, theirs, WithKey(t[1..], k));
    }
  }

  /** Two prefixes of which at least one is empty can be put in either order. */
  lemma SwapHeads<T>(a: seq<T>, b: seq<T>, w: seq<T>)
    requires a == [] || b == []
    ensures a + (b + w) == b + (a + w)
  {
    if a == [] {
      assert a + (b + w) == b + w;
    } else {
      assert b + (a + w) == a + w;
    }
  }

  /**
   `sort_by_key` on the lower-cased name: a stable sort. The result is a
   permutation of the input, ordered by key, and entries with equal keys
   keep their input order.
   */
  function SortByName(s: seq<FileInfo>): (r: seq<FileInfo>)
    ensures multiset(r) == multiset(s)
    ensures Sorted(r)
    ensures StableWrt(s, r)
    decreases |s|
  {
    if |s| == 0 then []
    else
      var rest := SortByName(s[1..]);
      var r := Insert(s[0], rest);
      assert s == [s[0]] + s[1..];
      forall k
        ensures WithKey(r, k) == WithKey(s, k)
      {
        InsertWithKey(s[0], rest, k);
        WithKeyAppend([s[0]], s[1..], k);
      }
      r
  }

  lemma WithKeyHead(s: seq<FileInfo>)
    ensures |s| > 0 ==> WithKey(s, Key(s[0])) != []
    ensures forall k :: |s| == 0 ==> WithKey(s, k) == []
  {
  }

  lemma WithKeyMember(s: seq<FileInfo>, k: string)
    requires WithKey(s, k) != []
    ensures exists j :: 0 <= j < |s| && Key(s[j]) == k
  {
    var y := WithKey(s, k)[0];
    assert y in s;
  }

  /**
   A stable sort has only one possible result: any two sequences that
   are both ordered by key and agree on the order of every key's entries
   are equal. So the sort above is the one `sort_by_key` computes.
   */
  lemma {:induction false} SortedStableUnique(u: seq<FileInfo>, v: seq<FileInfo>)
    requires Sorted(u) && Sorted(v)
    requires forall k :: WithKey(u, k) == WithKey(v, k)
    ensures u == v
    decreases |u| + |v|
  {
    if |u| == 0 || |v| == 0 {
      WithKeyHead(u);
      WithKeyHead(v);
    } else {
      var ku := Key(u[0]);
      var kv := Key(v[0]);
      assert LexLe(kv, ku) by {
        assert WithKey(v, ku) == WithKey(u, ku) != [];
        WithKeyMember(v, ku);
        var j :| 0 <= j < |v| && Key(v[j]) == ku;
        if j == 0 {
          LexLeRefl(kv);
        }
      }
      assert LexLe(ku, kv) by {
        assert WithKey(u, kv) == WithKey(v, kv) != [];
        WithKeyMember(u, kv);
        var j :| 0 <= j < |u| && Key(u[j]) == kv;
        if j == 0 {
          LexLeRefl(ku);
        }
      }
      LexLeAntisym(ku, kv);
      assert u[0] == v[0] by {
        assert WithKey(u, ku) == WithKey(v, ku);
        assert WithKey(u, ku) == [u[0]] + WithKey(u[1..], ku);
        assert WithKey(v, ku) == [v[0]] + WithKey(v[1..], ku);
        assert WithKey(u, ku)[0] == u[0];
        assert WithKey(v, ku)[0] == v[0];
      }
      forall k
        ensures WithKey(u[1..], k) == WithKey(v[1..], k)
      {
        var head := if ku == k then [u[0]] else [];
        assert WithKey(u, k) == WithKey(v, k);
        assert WithKey(u, k) == head + WithKey(u[1..], k);
        assert WithKey(v, k) == head + WithKey(v[1..], k);
        assert WithKey(u[1..], k) == WithKey(u, k)[|head|..];
        assert WithKey(v[1..], k) == WithKey(v, k)[|head|..];
      }
      SortedTail(u);
      SortedTail(v);
      SortedStableUnique(u[1..], v[1..]);
      assert u == [u[0]] + u[1..];
      assert v == [v[0]] + v[1..];
    }
  }

  // ---------------------------------------------------------------------
  // Reversal
  // ---------------------------------------------------------------------

  /** `Vec::reverse`. */
  function Reverse<T>(s: seq<T>): (r: seq<T>)
    ensures |r| == |s|
    ensures forall i :: 0 <= i < |s| ==> r[i] == s[|s| - 1 - i]
    decreases |s|
  {
    if |s| == 0 then [] else Reverse(s[1..]) + [s[0]]
  }

  lemma {:induction false} ReverseMultiset<T>(s: seq<T>)
    ensures multiset(Reverse(s)) == multiset(s)
    decreases |s|
  {
    if |s| > 0 {
      ReverseMultiset(s[1..]);
      assert s == [s[0]] + s[1..];
    }
  }

  lemma {:induction false} WithKeyReverse(s: seq<FileInfo>, k: string)
    ensures WithKey(Reverse(s), k) == Reverse(WithKey(s, k))
    decreases |s|
  {
    if |s| > 0 {
      WithKeyReverse(s[1..], k);
      WithKeyAppend(Reverse(s[1..]), [s[0]], k);
      assert WithKey([s[0]], k) == if Key(s[0]) == k then [s[0]] else [];
      var head := if Key(s[0]) == k then [s[0]] else [];
      var tail := WithKey(s[1..], k);
      ReverseAppend(head, tail);
      assert Reverse(head) == head;
    }
  }

  lemma ReverseAppend<T>(a: seq<T>, b: seq<T>)
    ensures Reverse(a + b) == Reverse(b) + Reverse(a)
  {
    var l := Reverse(a + b);
    var r := Reverse(b) + Reverse(a);
    assert |l| == |r|;
    forall i | 0 <= i < |l|
      ensures l[i] == r[i]
    {
      if i < |b| {
        assert l[i] == (a + b)[|a| + |b| - 1 - i];
      } else {
        assert l[i] == (a + b)[|a| + |b| - 1 - i];
      }
    }
  }

  // ---------------------------------------------------------------------
  // LSDisplay
  // ---------------------------------------------------------------------

  /** `LSDisplay`: the config and the entries in the order they will be shown. */
  datatype Display = Display(config: Config, entries: seq<FileInfo>)

  /**
   `LSDisplay::new`: stores the config unchanged and the entries as a
   permutation of the input, sorted stably by lower-cased name, then
   reversed when the `r` flag is set, so that `-r` lists keys in
   non-increasing order and equal keys in reverse input order.
   */
  function NewDisplay(config: Config, entries: seq<FileInfo>): (d: Display)
    ensures d.config == config
    ensures multiset(d.entries) == multiset(entries)
    ensures !config.r ==> Sorted(d.entries) && StableWrt(entries, d.entries)
    ensures config.r ==> forall i, j :: 0 <= i < j < |d.entries| ==> KeyLe(d.entries[j], d.entries[i])
    ensures config.r ==> forall k :: WithKey(d.entries, k) == Reverse(WithKey(entries, k))
  {
    var sorted := SortByName(entries);
    if config.r then
      var reversed := Reverse(sorted);
      ReverseMultiset(sorted);
      forall k
        ensures WithKey(reversed, k) == Reverse(WithKey(entries, k))
      {
        WithKeyReverse(sorted, k);
      }
      Display(config, reversed)
    else
      Display(config, sorted)
  }

  /** With `-r` the stored order is exactly the reverse of the order without it. */
  lemma NewDisplayReverse(config: Config, entries: seq<FileInfo>)
    requires config.r
    ensures NewDisplay(config, entries).entries == Reverse(NewDisplay(config.(r := false), entries).entries)
  {
  }

  /**
   The stored order does not depend on how the input happened to be
   ordered beyond equal keys: any sorted, stable rearrangement of the
   input is what `new` stores without `-r`.
   */
  lemma NewDisplayIsTheStableSort(config: Config, entries: seq<FileInfo>, candidate: seq<FileInfo>)
    requires !config.r
    requires Sorted(candidate) && StableWrt(entries, candidate)
    ensures NewDisplay(config, entries).entries == candidate
  {
    SortedStableUnique(NewDisplay(config, entries).entries, candidate);
  }

  // ---------------------------------------------------------------------
  // Filtering hidden entries and writing the output
  // ---------------------------------------------------------------------

  /** A name starting with `.` is hidden. */
  predicate Hidden(e: FileInfo) {
    StartsWith(e.name, ".")
  }

  /** The iterator `filter` that drops hidden entries, keeping the order of the rest. */
  function Unhidden(s: seq<FileInfo>): (r: seq<FileInfo>)
    ensures forall e :: e in r <==> e in s && !Hidden(e)
    ensures |r| <= |s|
    decreases |s|
  {
    if |s| == 0 then []
    else (if Hidden(s[0]) then [] else [s[0]]) + Unhidden(s[1..])
  }

  lemma {:induction false} UnhiddenAppend(a: seq<FileInfo>, b: seq<FileInfo>)
    ensures Unhidden(a + b) == Unhidden(a) + Unhidden(b)
    decreases |a|
  {
    if |a| == 0 {
      assert a + b == b;
    } else {
      assert (a + b)[1..] == a[1..] + b;
      UnhiddenAppend(a[1..], b);
    }
  }

  /** A single entry is kept exactly when it is not hidden; with `UnhiddenAppend` this fixes the order of what is kept. */
  lemma UnhiddenOne(x: FileInfo)
    ensures Unhidden([x]) == if Hidden(x) then [] else [x]
  {
    assert [x][1..] == [];
  }

  /** Dropping hidden entries keeps the remaining ones in sorted order. */
  lemma {:induction false} UnhiddenSorted(s: seq<FileInfo>)
    requires Sorted(s)
    ensures Sorted(Unhidden(s))
    decreases |s|
  {
    if |s| > 0 {
      SortedTail(s);
      UnhiddenSorted(s[1..]);
      if !Hidden(s[0]) {
        SortedCons(s[0], Unhidden(s[1..]));
      }
    }
  }

  /** Nothing is dropped when no entry is hidden. */
  lemma {:induction false} UnhiddenNoneHidden(s: seq<FileInfo>)
    requires forall i :: 0 <= i < |s| ==> !Hidden(s[i])
    ensures Unhidden(s) == s
    decreases |s|
  {
    if |s| > 0 {
      UnhiddenNoneHidden(s[1..]);
      assert s == [s[0]] + s[1..];
    }
  }

  /** The entries `display` writes: all of them with `-a`, else the ones not hidden. */
  function Shown(d: Display): seq<FileInfo> {
    if d.config.a then d.entries else Unhidden(d.entries)
  }

  /** One entry's output: `println!` of `long()` with `-l`, else `print!` of `short()` and two spaces. */
  function Render(config: Config, e: FileInfo): string {
    if config.l then Long(e) + "\n" else Short(e) + "  "
  }

  /**
   With `-l` an entry is written as its long line and a newline; without
   it, as its coloured name followed by two spaces.
   */
  lemma RenderForm(config: Config, e: FileInfo)
    ensures config.l ==> StartsWith(Render(config, e), e.permissions + " ") && EndsWith(Render(config, e), "\n")
    ensures !config.l ==> StartsWith(Render(config, e), ShortColor(e.fileType)) && EndsWith(Render(config, e), "  ")
    ensures config.l && PlainFields(e) ==> Visible(Render(config, e)) == LongColumns(e) + VisibleName(e) + "\n"
    ensures !config.l && Plain(e.name) ==> Visible(Render(config, e)) == e.name + "  "
  {
    if config.l {
      StartsWithAppend(Long(e), "\n", e.permissions + " ");
      if PlainFields(e) {
        LongLineVisible(e);
      }
    } else {
      StartsWithAppend(Short(e), "  ", ShortColor(e.fileType));
      if Plain(e.name) {
        assert Plain("  ");
        VisibleColoredName(ShortColor(e.fileType), e.name, "  ");
      }
    }
  }

  /** What a terminal shows of a long line and its newline. */
  lemma LongLineVisible(e: FileInfo)
    requires PlainFields(e)
    ensures Visible(Long(e) + "\n") == LongColumns(e) + VisibleName(e) + "\n"
  {
    assert Plain("\n");
    AppendAssoc(LongColumns(e), NameColumn(e), "\n");
    PlainColumns(e);
    VisibleNameColumn(e, "\n");
    VisibleAppendPlain(LongColumns(e), NameColumn(e) + "\n");
    AppendAssoc(LongColumns(e), VisibleName(e), "\n");
  }

  /** Writes each item in turn, collecting the text written for each, in order. */
  method WriteEach<T>(render: T -> string, items: seq<T>) returns (out: seq<string>)
    ensures |out| == |items|
    ensures forall i :: 0 <= i < |items| ==> out[i] == render(items[i])
  {
    out := [];
    var i := 0;
    while i < |items|
      invariant 0 <= i <= |items|
      invariant |out| == i
      invariant forall j :: 0 <= j < i ==> out[j] == render(items[j])
    {
      out := out + [render(items[i])];
      i := i + 1;
    }
  }

  /**
   `LSDisplay::display`, with the text each `print!` or `println!` call
   writes collected in order instead of sent to standard output: one
   piece per shown entry, in the stored order.
   */
  method DisplayOutput(d: Display) returns (out: seq<string>)
    ensures |out| == |Shown(d)|
    ensures forall i :: 0 <= i < |out| ==> out[i] == Render(d.config, Shown(d)[i])
  {
    out := WriteEach(e => Render(d.config, e), Shown(d));
  }

  /**
   What `display` shows: without `-a`, exactly the entries whose names
   do not start with `.`; with `-a`, all of them, in the stored order.
   */
  lemma ShownEntries(d: Display)
    ensures d.config.a ==> Shown(d) == d.entries
    ensures !d.config.a ==> forall e :: e in Shown(d) <==> e in d.entries && !Hidden(e)
    ensures !d.config.a && (forall i :: 0 <= i < |d.entries| ==> !Hidden(d.entries[i])) ==> Shown(d) == d.entries
    ensures !d.config.a ==> forall i :: 0 <= i <= |d.entries| ==> Shown(d) == Unhidden(d.entries[..i]) + Unhidden(d.entries[i..])
  {
    if !d.config.a {
      forall i | 0 <= i <= |d.entries|
        ensures Shown(d) == Unhidden(d.entries[..i]) + Unhidden(d.entries[i..])
      {
        assert d.entries == d.entries[..i] + d.entries[i..];
        UnhiddenAppend(d.entries[..i], d.entries[i..]);
      }
    }
    if !d.config.a && (forall i :: 0 <= i < |d.entries| ==> !Hidden(d.entries[i])) {
      UnhiddenNoneHidden(d.entries);
    }
  }

  /** A stored entry is shown if and only if `-a` is given or its name does not start with `.`. */
  lemma ShownIff(d: Display, e: FileInfo)
    requires e in d.entries
    ensures e in Shown(d) <==> d.config.a || !Hidden(e)
  {
  }

  /** Without `-r`, the shown entries are in sorted order whether or not `-a` is given. */
  lemma ShownSorted(config: Config, entries: seq<FileInfo>)
    requires !config.r
    ensures Sorted(Shown(NewDisplay(config, entries)))
  {
    var d := NewDisplay(config, entries);
    if !config.a {
      UnhiddenSorted(d.entries);
    }
  }

  /** A regular file entry with the given name and fixed other columns. */
  function SampleFile(name: string): FileInfo {
    FileInfo("-rw-r--r--", 1, "user", "staff", 0, "Jan 01 00:00", name, File)
  }

  lemma SampleKeys()
    ensures Key(SampleFile("A")) == "a"
    ensures Key(SampleFile("b")) == "b"
    ensures Key(SampleFile("c")) == "c"
  {
    assert LowerChar('A') == 'a';
    assert Lower("A")[0] == 'a';
  }

  lemma SampleInserts()
    ensures Insert(SampleFile("c"), []) == [SampleFile("c")]
    ensures Insert(SampleFile("A"), [SampleFile("c")]) == [SampleFile("A"), SampleFile("c")]
    ensures Insert(SampleFile("b"), [SampleFile("A"), SampleFile("c")])
         == [SampleFile("A"), SampleFile("b"), SampleFile("c")]
  {
    SampleKeys();
    var b, a, c := SampleFile("b"), SampleFile("A"), SampleFile("c");
    assert KeyLe(a, c);
    assert !KeyLe(b, a);
    assert KeyLe(b, c);
    assert Insert(b, [a, c]) == [a] + Insert(b, [c]);
  }

  lemma SampleSort()
    ensures SortByName([SampleFile("b"), SampleFile("A"), SampleFile("c")])
         == [SampleFile("A"), SampleFile("b"), SampleFile("c")]
  {
    var b, a, c := SampleFile("b"), SampleFile("A"), SampleFile("c");
    SampleInserts();
    assert [b, a, c][1..] == [a, c] && [a, c][1..] == [c] && [c][1..] == [];
    assert SortByName([c]) == [c];
    assert SortByName([a, c]) == [a, c];
  }

  /** Names `b`, `A`, `c` are listed `A`, `b`, `c`. */
  lemma SortExample()
    ensures NewDisplay(New(), [SampleFile("b"), SampleFile("A"), SampleFile("c")]).entries
         == [SampleFile("A"), SampleFile("b"), SampleFile("c")]
  {
    SampleSort();
  }

  lemma SampleReverse()
    ensures Reverse([SampleFile("A"), SampleFile("b"), SampleFile("c")])
         == [SampleFile("c"), SampleFile("b"), SampleFile("A")]
  {
    var b, a, c := SampleFile("b"), SampleFile("A"), SampleFile("c");
    var rev := Reverse([a, b, c]);
    assert rev[0] == c && rev[1] == b && rev[2] == a;
  }

  /** With `-r` the same names are listed `c`, `b`, `A`. */
  lemma SortExampleReversed()
    ensures NewDisplay(SetFlag(New(), 'r'), [SampleFile("b"), SampleFile("A"), SampleFile("c")]).entries
         == [SampleFile("c"), SampleFile("b"), SampleFile("A")]
  {
    assert Has(SetFlag(New(), 'r'), ReverseOrder);
    SampleSort();
    SampleReverse();
  }
}
