/**
 Text helpers shared by the keybinding model: ASCII lowercasing, splitting
 and joining on a separator character, the lexicographic order JavaScript's
 default `Array.prototype.sort` uses on strings, and an insertion sort with
 its uniqueness theorem.
 */
module Strings {

  /* ---------------------------------------------------------------- case */

  predicate IsUpper(c: char) {
    'A' <= c <= 'Z'
  }

  /** `toLowerCase` restricted to ASCII: A–Z map to a–z, every other character is kept. */
  function LowerChar(c: char): (d: char)
    ensures !IsUpper(d)
    ensures !IsUpper(c) ==> d == c
    ensures IsUpper(c) ==> 'a' <= d <= 'z' && d as int - c as int == 32
  {
    if IsUpper(c) then (c as int + 32) as char else c
  }

  function Lower(s: string): (r: string)
    ensures |r| == |s|
    ensures forall i :: 0 <= i < |s| ==> r[i] == LowerChar(s[i])
  {
    seq(|s|, i requires 0 <= i < |s| => LowerChar(s[i]))
  }

  /** No upper-case ASCII letter occurs in `s`. */
  predicate IsLower(s: string) {
    forall i :: 0 <= i < |s| ==> !IsUpper(s[i])
  }

  lemma LowerIsLower(s: string)
    ensures IsLower(Lower(s))
  {
  }

  /** Lowercasing a string that has no upper-case letter changes nothing. */
  lemma LowerFixesLower(s: string)
    requires IsLower(s)
    ensures Lower(s) == s
  {
  }

  lemma LowerConcat(a: string, b: string)
    ensures Lower(a + b) == Lower(a) + Lower(b)
  {
  }

  /** Lowercases every token of a list. */
  function LowerAll(toks: seq<string>): (r: seq<string>)
    ensures |r| == |toks|
    ensures forall i :: 0 <= i < |toks| ==> r[i] == Lower(toks[i])
  {
    seq(|toks|, i requires 0 <= i < |toks| => Lower(toks[i]))
  }

  lemma LowerAllAppend(toks: seq<string>, x: string)
    ensures LowerAll(toks + [x]) == LowerAll(toks) + [Lower(x)]
  {
    var l := LowerAll(toks + [x]);
    var r := LowerAll(toks) + [Lower(x)];
    assert |l| == |r|;
    forall i | 0 <= i < |l|
      ensures l[i] == r[i]
    {
      if i < |toks| {
        assert (toks + [x])[i] == toks[i];
      } else {
        assert (toks + [x])[i] == x;
      }
    }
  }

  /* ------------------------------------------------------ split and join */

  /**
   `String.prototype.split(sep)` for a one-character separator: every
   maximal run of non-separator characters, empty runs included, so the
   result is never empty and `split` of "" is [""].
   */
  function Split(s: string, sep: char): (toks: seq<string>)
    ensures |toks| >= 1
    ensures forall i :: 0 <= i < |toks| ==> sep !in toks[i]
    decreases |s|
  {
    if |s| == 0 then [""]
    else
      var rest := Split(s[1..], sep);
      if s[0] == sep then [""] + rest
      else [[s[0]] + rest[0]] + rest[1..]
  }

  /** `Array.prototype.join(sep)`: the tokens with one separator between neighbours. */
  function Join(toks: seq<string>, sep: char): string
  {
    if |toks| == 0 then ""
    else if |toks| == 1 then toks[0]
    else toks[0] + [sep] + Join(toks[1..], sep)
  }

  /** Joining the pieces of a split gives back the original string. */
  lemma {:induction false} JoinSplit(s: string, sep: char)
    ensures Join(Split(s, sep), sep) == s
    decreases |s|
  {
    if |s| > 0 {
      JoinSplit(s[1..], sep);
      var rest := Split(s[1..], sep);
      if s[0] == sep {
        assert s == [sep] + s[1..];
      } else {
        if |rest| == 1 {
          assert s == [s[0]] + s[1..];
        } else {
          assert Join(rest, sep) == rest[0] + [sep] + Join(rest[1..], sep);
          assert s == [s[0]] + s[1..];
        }
      }
    }
  }

  /** A separator-free prefix is glued onto the first piece of the split. */
  lemma {:induction false} SplitPrefix(t: string, u: string, sep: char)
    requires sep !in t
    ensures Split(t + u, sep) == [t + Split(u, sep)[0]] + Split(u, sep)[1..]
    decreases |t|
  {
    if |t| > 0 {
      assert (t + u)[1..] == t[1..] + u;
      assert (t + u)[0] == t[0];
      SplitPrefix(t[1..], u, sep);
      assert [t[0]] + (t[1..] + Split(u, sep)[0]) == t + Split(u, sep)[0];
    } else {
      assert t + u == u;
      var parts := Split(u, sep);
      assert parts == [parts[0]] + parts[1..];
      assert t + parts[0] == parts[0];
    }
  }

  /** Splitting a join of separator-free tokens gives back the tokens. */
  lemma {:induction false} SplitJoin(toks: seq<string>, sep: char)
    requires |toks| >= 1
    requires forall i :: 0 <= i < |toks| ==> sep !in toks[i]
    ensures Split(Join(toks, sep), sep) == toks
  {
    var t := toks[0];
    if |toks| == 1 {
      SplitPrefix(t, "", sep);
      assert t + "" == t;
    } else {
      var j := Join(toks[1..], sep);
      SplitJoin(toks[1..], sep);
      assert Join(toks, sep) == t + ([sep] + j);
      SplitPrefix(t, [sep] + j, sep);
      assert ([sep] + j)[1..] == j;
      assert Split([sep] + j, sep) == [""] + toks[1..];
      assert t + "" == t;
      assert toks == [t] + toks[1..];
    }
  }

  /** A join is empty exactly when there is nothing to join or a single empty token. */
  lemma {:induction false} JoinEmpty(toks: seq<string>, sep: char)
    ensures Join(toks, sep) == "" <==> |toks| == 0 || (|toks| == 1 && toks[0] == "")
  {
    if |toks| >= 2 {
      assert |Join(toks, sep)| >= 1;
    }
  }

  /** Joining one more token onto a non-empty list puts one separator before it. */
  lemma {:induction false} JoinAppend(toks: seq<string>, x: string, sep: char)
    requires |toks| >= 1
    ensures Join(toks + [x], sep) == Join(toks, sep) + [sep] + x
  {
    if |toks| >= 2 {
      JoinAppend(toks[1..], x, sep);
      assert (toks + [x])[1..] == toks[1..] + [x];
    }
  }

  /** Two separators after a join read back as two empty pieces after the tokens. */
  lemma SplitTrailingSeps(toks: seq<string>, sep: char)
    requires |toks| >= 1
    requires forall i :: 0 <= i < |toks| ==> sep !in toks[i]
    ensures Split(Join(toks, sep) + [sep] + [sep], sep) == toks + ["", ""]
  {
    var once := toks + [""];
    var twice := once + [""];
    JoinAppend(toks, "", sep);
    JoinAppend(once, "", sep);
    assert Join(twice, sep) == Join(toks, sep) + [sep] + [sep];
    assert twice == toks + ["", ""];
    SplitJoin(twice, sep);
  }

  /** One more piece after a join of separator-free tokens reads back as one more token. */
  lemma SplitJoinAppend(toks: seq<string>, x: string, sep: char)
    requires |toks| >= 1
    requires forall i :: 0 <= i < |toks| ==> sep !in toks[i]
    requires sep !in x
    ensures Split(Join(toks, sep) + [sep] + x, sep) == toks + [x]
  {
    JoinAppend(toks, x, sep);
    SplitJoin(toks + [x], sep);
  }

  /** A lone separator splits into two empty pieces. */
  lemma SplitLoneSep(sep: char)
    ensures Split([sep], sep) == ["", ""]
  {
    SplitJoin(["", ""], sep);
    assert Join(["", ""], sep) == [sep];
  }

  /** Lowercasing commutes with joining on a separator that is not an upper-case letter. */
  lemma {:induction false} LowerJoin(toks: seq<string>, sep: char)
    requires !IsUpper(sep)
    ensures Lower(Join(toks, sep)) == Join(LowerAll(toks), sep)
  {
    if |toks| >= 2 {
      LowerJoin(toks[1..], sep);
      LowerConcat(toks[0] + [sep], Join(toks[1..], sep));
      LowerConcat(toks[0], [sep]);
      assert LowerAll(toks)[1..] == LowerAll(toks[1..]);
    }
  }

  /** Lowercasing a string lowercases each piece of its split, the pieces staying the same. */
  lemma SplitLower(s: string, sep: char)
    requires !IsUpper(sep) && !('a' <= sep <= 'z')
    ensures Split(Lower(s), sep) == LowerAll(Split(s, sep))
  {
    var toks := Split(s, sep);
    JoinSplit(s, sep);
    LowerJoin(toks, sep);
    forall i | 0 <= i < |toks|
      ensures sep !in LowerAll(toks)[i]
    {
      assert forall k :: 0 <= k < |toks[i]| ==> toks[i][k] != sep;
    }
    SplitJoin(LowerAll(toks), sep);
  }

  /* --------------------------------------------------- lexicographic order */

  /**
   Strict lexicographic order on character sequences: the order in which the
   default `sort()` compares strings (a proper prefix sorts first).
   */
  predicate LexLess(a: string, b: string)
    decreases |a|
  {
    if |a| == 0 then |b| > 0
    else if |b| == 0 then false
    else if a[0] != b[0] then a[0] < b[0]
    else LexLess(a[1..], b[1..])
  }

  predicate LexLessEq(a: string, b: string) {
    a == b || LexLess(a, b)
  }

  lemma {:induction false} LexIrreflexive(a: string)
    ensures !LexLess(a, a)
    decreases |a|
  {
    if |a| > 0 {
      LexIrreflexive(a[1..]);
    }
  }

  lemma {:induction false} LexTransitive(a: string, b: string, c: string)
    requires LexLess(a, b) && LexLess(b, c)
    ensures LexLess(a, c)
    decreases |a|
  {
    if |a| > 0 && |b| > 0 && |c| > 0 && a[0] == b[0] && b[0] == c[0] {
      LexTransitive(a[1..], b[1..], c[1..]);
    }
  }

  /** Any two different strings are ordered one way or the other. */
  lemma {:induction false} LexConnected(a: string, b: string)
    requires a != b
    ensures LexLess(a, b) || LexLess(b, a)
    decreases |a|
  {
    if |a| > 0 && |b| > 0 && a[0] == b[0] {
      assert a == [a[0]] + a[1..] && b == [b[0]] + b[1..];
      LexConnected(a[1..], b[1..]);
    }
  }

  lemma LexAsymmetric(a: string, b: string)
    requires LexLess(a, b)
    ensures !LexLess(b, a)
  {
    if LexLess(b, a) {
      LexTransitive(a, b, a);
      LexIrreflexive(a);
    }
  }

  /* ------------------------------------------------------------- sorting */

  predicate Sorted(xs: seq<string>) {
    forall i, j :: 0 <= i < j < |xs| ==> LexLessEq(xs[i], xs[j])
  }

  /** Places `x` into a sorted list after every element strictly smaller than it. */
  function Insert(x: string, xs: seq<string>): (r: seq<string>)
    requires Sorted(xs)
    ensures Sorted(r)
    ensures multiset(r) == multiset(xs) + multiset{x}
  {
    if |xs| == 0 then [x]
    else if LexLessEq(x, xs[0]) then
      InsertFront(x, xs);
      [x] + xs
    else
      var r' := Insert(x, xs[1..]);
      assert xs == [xs[0]] + xs[1..];
      LexConnected(x, xs[0]);
      InsertBehind(xs[0], x, xs[1..], r');
      [xs[0]] + r'
  }

  lemma InsertFront(x: string, xs: seq<string>)
    requires Sorted(xs) && |xs| > 0 && LexLessEq(x, xs[0])
    ensures Sorted([x] + xs)
  {
    forall j | 0 < j < |xs| + 1
      ensures LexLessEq(x, ([x] + xs)[j])
    {
      if x != xs[0] && xs[0] != xs[j - 1] {
        LexTransitive(x, xs[0], xs[j - 1]);
      }
    }
  }

  lemma InsertBehind(y: string, x: string, tail: seq<string>, r': seq<string>)
    requires Sorted(r') && LexLess(y, x)
    requires forall j :: 0 <= j < |tail| ==> LexLessEq(y, tail[j])
    requires multiset(r') == multiset(tail) + multiset{x}
    ensures Sorted([y] + r')
  {
    forall j | 0 <= j < |r'|
      ensures LexLessEq(y, r'[j])
    {
      assert r'[j] in multiset(r');
      if r'[j] != x {
        assert r'[j] in multiset(tail);
        var k :| 0 <= k < |tail| && tail[k] == r'[j];
      }
    }
  }

  /** Insertion sort in ascending lexicographic order. */
  function Sort(xs: seq<string>): (r: seq<string>)
    ensures Sorted(r)
    ensures multiset(r) == multiset(xs)
  {
    if |xs| == 0 then []
    else
      assert xs == [xs[0]] + xs[1..];
      Insert(xs[0], Sort(xs[1..]))
  }

  /** Two sorted lists holding the same elements are the same list. */
  lemma {:induction false} SortedUnique(a: seq<string>, b: seq<string>)
    requires Sorted(a) && Sorted(b)
    requires multiset(a) == multiset(b)
    ensures a == b
  {
    if |a| > 0 {
      SortedHeads(a, b);
      TailMultiset(a);
      TailMultiset(b);
      SortedUnique(a[1..], b[1..]);
      assert a == [a[0]] + a[1..] && b == [b[0]] + b[1..];
    } else {
      assert |multiset(b)| == 0;
    }
  }

  /** Two sorted lists with the same elements start with the same element. */
  lemma SortedHeads(a: seq<string>, b: seq<string>)
    requires Sorted(a) && Sorted(b)
    requires multiset(a) == multiset(b)
    requires |a| > 0
    ensures |b| == |a| && a[0] == b[0]
  {
    assert |b| == |a| by {
      assert |multiset(a)| == |a| && |multiset(b)| == |b|;
    }
    assert a[0] in multiset(b);
    var i :| 0 <= i < |b| && b[i] == a[0];
    assert b[0] in multiset(a);
    var j :| 0 <= j < |a| && a[j] == b[0];
    assert LexLessEq(b[0], a[0]) by { if i > 0 { assert LexLessEq(b[0], b[i]); } }
    assert LexLessEq(a[0], b[0]) by { if j > 0 { assert LexLessEq(a[0], a[j]); } }
    if a[0] != b[0] {
      LexAsymmetric(a[0], b[0]);
    }
  }

  /** Dropping the head removes one copy of it from the multiset. */
  lemma TailMultiset(a: seq<string>)
    requires |a| > 0
    ensures multiset(a[1..]) == multiset(a) - multiset{a[0]}
  {
    assert a == [a[0]] + a[1..];
  }

  /** Sorting keeps exactly the elements it was given. */
  lemma SortSameElements(xs: seq<string>)
    ensures forall x :: x in Sort(xs) <==> x in xs
  {
    forall x
      ensures x in Sort(xs) <==> x in xs
    {
      assert x in Sort(xs) <==> x in multiset(Sort(xs));
      assert x in xs <==> x in multiset(xs);
    }
  }

  /** Every element of the sorted list is drawn from any set that holds all the inputs. */
  lemma SortWithin(xs: seq<string>, names: set<string>)
    requires forall i :: 0 <= i < |xs| ==> xs[i] in names
    ensures |Sort(xs)| == |xs|
    ensures forall i :: 0 <= i < |Sort(xs)| ==> Sort(xs)[i] in names
  {
    var sorted := Sort(xs);
    assert |multiset(sorted)| == |multiset(xs)|;
    SortSameElements(xs);
    forall i | 0 <= i < |sorted|
      ensures sorted[i] in names
    {
      assert sorted[i] in xs;
    }
  }

  /** Sorting separator-free tokens gives separator-free tokens. */
  lemma SortSepFree(xs: seq<string>, sep: char)
    requires forall i :: 0 <= i < |xs| ==> sep !in xs[i]
    ensures forall i :: 0 <= i < |Sort(xs)| ==> sep !in Sort(xs)[i]
  {
    var sorted := Sort(xs);
    SortSameElements(xs);
    forall i | 0 <= i < |sorted|
      ensures sep !in sorted[i]
    {
      assert sorted[i] in xs;
    }
  }

  /** Sorting never changes whether the tokens join to the empty string. */
  lemma SortJoinEmpty(xs: seq<string>, sep: char)
    ensures Join(Sort(xs), sep) == "" <==> Join(xs, sep) == ""
  {
    var sorted := Sort(xs);
    JoinEmpty(sorted, sep);
    JoinEmpty(xs, sep);
    assert |sorted| == |xs| by {
      assert |multiset(sorted)| == |multiset(xs)|;
    }
    if |xs| == 1 {
      assert sorted[0] in multiset(xs);
    }
  }

  /** Sorting depends only on which elements there are, never on their input order. */
  lemma SortPermutationInvariant(p: seq<string>, q: seq<string>)
    requires multiset(p) == multiset(q)
    ensures Sort(p) == Sort(q)
  {
    SortedUnique(Sort(p), Sort(q));
  }

  /** Sorting an already-sorted list returns it unchanged. */
  lemma SortSorted(xs: seq<string>)
    requires Sorted(xs)
    ensures Sort(xs) == xs
  {
    SortedUnique(Sort(xs), xs);
  }

}
