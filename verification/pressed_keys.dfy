/**
 The on-screen list of keys currently held down. A key-down adds the key
 through a `Set`, which keeps first-insertion order and drops repeats; a
 key-up filters the key out.
 */
module PressedKeys {

  /** No key appears twice. */
  predicate NoDuplicates(xs: seq<string>)
  {
    forall i, j :: 0 <= i < j < |xs| ==> xs[i] != xs[j]
  }

  /** `[...new Set(xs)]`: each key at its first occurrence, in order. */
  function Dedup(xs: seq<string>): (r: seq<string>)
    ensures NoDuplicates(r)
    ensures forall x :: x in r <==> x in xs
    ensures |r| <= |xs|
    decreases |xs|
  {
    if |xs| == 0 then []
    else
      var d := Dedup(xs[..|xs| - 1]);
      var x := xs[|xs| - 1];
      assert xs == xs[..|xs| - 1] + [x];
      if x in d then d else d + [x]
  }

  /** A list without repeats comes out of the set unchanged. */
  lemma {:induction false} DedupFixesUnique(xs: seq<string>)
    requires NoDuplicates(xs)
    ensures Dedup(xs) == xs
    decreases |xs|
  {
    if |xs| > 0 {
      var init := xs[..|xs| - 1];
      DedupFixesUnique(init);
      assert xs[|xs| - 1] !in init;
      assert xs == init + [xs[|xs| - 1]];
    }
  }

  /** Handling a key-down: the key joins the list once, at the end. */
  function KeyDown(prev: seq<string>, k: string): (r: seq<string>)
    ensures NoDuplicates(r)
    ensures k in r
    ensures forall x :: x in r <==> x in prev || x == k
  {
    Dedup(prev + [k])
  }

  /**
   On a list without repeats, a new key is appended after the others, and
   a key already held leaves the list as it was.
   */
  lemma KeyDownAppendsOnce(prev: seq<string>, k: string)
    requires NoDuplicates(prev)
    ensures k !in prev ==> KeyDown(prev, k) == prev + [k]
    ensures k in prev ==> KeyDown(prev, k) == prev
  {
    DedupFixesUnique(prev);
    assert (prev + [k])[..|prev|] == prev;
  }

  /** `a` is `b` with some elements left out, the rest in their original order. */
  predicate SubsequenceOf(a: seq<string>, b: seq<string>)
    decreases |b|
  {
    if |a| == 0 then true
    else if |b| == 0 then false
    else if a[0] == b[0] then SubsequenceOf(a[1..], b[1..])
    else SubsequenceOf(a, b[1..])
  }

  /**
   Handling a key-up: every copy of the key is filtered out, and the other
   keys keep their order.
   */
  function KeyUp(prev: seq<string>, k: string): (r: seq<string>)
    ensures k !in r
    ensures multiset(r) == multiset(prev)[k := 0]
    ensures SubsequenceOf(r, prev)
    decreases |prev|
  {
    if |prev| == 0 then []
    else
      var rest := KeyUp(prev[1..], k);
      assert prev == [prev[0]] + prev[1..];
      if prev[0] == k then rest else [prev[0]] + rest
  }

  /** Filtering keeps the list free of repeats, and a key not held changes nothing. */
  lemma {:induction false} KeyUpKeeps(prev: seq<string>, k: string)
    ensures NoDuplicates(prev) ==> NoDuplicates(KeyUp(prev, k))
    ensures k !in prev ==> KeyUp(prev, k) == prev
    ensures forall x :: x != k ==> (x in KeyUp(prev, k) <==> x in prev)
    decreases |prev|
  {
    var r := KeyUp(prev, k);
    forall x | x != k
      ensures x in r <==> x in prev
    {
      assert x in r <==> x in multiset(r);
      assert x in prev <==> x in multiset(prev);
    }
    if |prev| > 0 {
      KeyUpKeeps(prev[1..], k);
      var rest := KeyUp(prev[1..], k);
      if NoDuplicates(prev) {
        assert NoDuplicates(prev[1..]);
        assert prev[0] !in prev[1..];
        if prev[0] != k {
          assert prev[0] !in rest;
        }
      }
    }
  }

  /** Pressing a key that was not held and releasing it again restores the list. */
  lemma DownThenUp(prev: seq<string>, k: string)
    requires NoDuplicates(prev) && k !in prev
    ensures KeyUp(KeyDown(prev, k), k) == prev
  {
    KeyDownAppendsOnce(prev, k);
    KeyUpAppend(prev, k);
    KeyUpKeeps(prev, k);
  }

  /** Filtering a list with the key appended is filtering the list. */
  lemma {:induction false} KeyUpAppend(prev: seq<string>, k: string)
    ensures KeyUp(prev + [k], k) == KeyUp(prev, k)
    decreases |prev|
  {
    if |prev| > 0 {
      assert (prev + [k])[1..] == prev[1..] + [k];
      KeyUpAppend(prev[1..], k);
    }
  }

  datatype KeyEvent = Down(key: string) | Up(key: string)

  /** The list after a sequence of key events: only keys held before or pressed during the run are shown. */
  function Run(prev: seq<string>, evs: seq<KeyEvent>): (r: seq<string>)
    ensures forall k :: k in r ==> k in prev || exists i :: 0 <= i < |evs| && evs[i] == Down(k)
    decreases |evs|
  {
    if |evs| == 0 then prev
    else
      var next := match evs[0] case Down(k) => KeyDown(prev, k) case Up(k) => KeyUp(prev, k);
      KeyUpKeeps(prev, evs[0].key);
      assert forall k :: k in next ==> k in prev || evs[0] == Down(k);
      assert forall i :: 0 <= i < |evs[1..]| ==> evs[1..][i] == evs[i + 1];
      Run(next, evs[1..])
  }

  /** Starting from a list without repeats, the list never holds a key twice. */
  lemma {:induction false} RunNoDuplicates(prev: seq<string>, evs: seq<KeyEvent>)
    requires NoDuplicates(prev)
    ensures NoDuplicates(Run(prev, evs))
    decreases |evs|
  {
    if |evs| > 0 {
      match evs[0]
      case Down(k) =>
        RunNoDuplicates(KeyDown(prev, k), evs[1..]);
      case Up(k) =>
        KeyUpKeeps(prev, k);
        RunNoDuplicates(KeyUp(prev, k), evs[1..]);
    }
  }

  /** Whatever came before, a key just released is not shown. */
  lemma ReleasedKeyAbsent(prev: seq<string>, evs: seq<KeyEvent>, k: string)
    requires |evs| > 0 && evs[|evs| - 1] == Up(k)
    ensures k !in Run(prev, evs)
  {
    RunSnoc(prev, evs[..|evs| - 1], Up(k));
    assert evs == evs[..|evs| - 1] + [Up(k)];
  }

  /** Running one more event is applying it to the list the run reached. */
  lemma {:induction false} RunSnoc(prev: seq<string>, evs: seq<KeyEvent>, ev: KeyEvent)
    ensures Run(prev, evs + [ev]) == Run(Run(prev, evs), [ev])
    decreases |evs|
  {
    if |evs| > 0 {
      assert (evs + [ev])[1..] == evs[1..] + [ev];
      var next := match evs[0] case Down(k) => KeyDown(prev, k) case Up(k) => KeyUp(prev, k);
      RunSnoc(next, evs[1..], ev);
    }
  }
}
