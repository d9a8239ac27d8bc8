/** The bounded first-in-first-out window behind every per-type log and the
    report history (a `deque` created with `maxlen`), and the text a log file holds. */
module BoundedLog {
  import opened Common

  /** The last `cap` elements of `s`, oldest first. */
  function Window<T>(s: seq<T>, cap: nat): (w: seq<T>)
    ensures |w| == Min(|s|, cap)
    ensures w == s[|s| - |w|..]
  {
    if |s| <= cap then s else s[|s| - cap..]
  }

  /** One `append` to a deque whose `maxlen` is `cap`: when the deque is full the
      oldest element is dropped to make room; with `maxlen` 0 nothing is kept. */
  function DequeAppend<T>(w: seq<T>, x: T, cap: nat): (r: seq<T>)
    requires |w| <= cap
    ensures |r| == Min(|w| + 1, cap)
    ensures r == (w + [x])[|w| + 1 - |r|..]
  {
    if cap == 0 then []
    else if |w| == cap then w[1..] + [x]
    else w + [x]
  }

  /** One append to a deque is the last `cap` elements of the deque with the new
      element added at the end. */
  lemma DequeAppendIsWindow<T>(w: seq<T>, x: T, cap: nat)
    requires |w| <= cap
    ensures DequeAppend(w, x, cap) == Window(w + [x], cap)
  {
    var s := w + [x];
    if cap == 0 {
      assert Window(s, cap) == [];
    } else if |w| == cap {
      assert w[1..] + [x] == s[1..];
      assert Window(s, cap) == s[1..];
    } else {
      assert Window(s, cap) == s;
    }
  }

  /** Appending to the window of a stream gives the window of the longer stream:
      the deque always holds the last `cap` elements received, oldest first. */
  lemma DequeAppendWindow<T>(s: seq<T>, x: T, cap: nat)
    ensures DequeAppend(Window(s, cap), x, cap) == Window(s + [x], cap)
  {
    var w := Window(s, cap);
    if cap != 0 && |s| >= cap {
      assert |w| == cap;
      assert w[1..] == s[|s| - cap + 1..];
      assert w[1..] + [x] == (s + [x])[|s| + 1 - cap..];
    }
  }

  /** The window of a stream, extended and cut back to `cap`, is the window of the
      extended stream. */
  lemma WindowAppend<T>(s: seq<T>, x: T, cap: nat)
    ensures Window(Window(s, cap) + [x], cap) == Window(s + [x], cap)
  {
    DequeAppendIsWindow(Window(s, cap), x, cap);
    DequeAppendWindow(s, x, cap);
  }

  /** A counter of received elements capped at `cap` grows by one exactly while it
      is below `cap`. */
  lemma CappedCountStep(n: nat, cap: nat)
    ensures Min(n + 1, cap) == if Min(n, cap) < cap then Min(n, cap) + 1 else Min(n, cap)
  {
  }

  /** A full deque evicts exactly its oldest element, and never grows past `cap`. */
  lemma DequeAppendEvictsOldest<T>(w: seq<T>, x: T, cap: nat)
    requires |w| <= cap
    ensures |DequeAppend(w, x, cap)| == Min(|w| + 1, cap)
    ensures 0 < |w| == cap ==> DequeAppend(w, x, cap) == w[1..] + [x]
    ensures |w| < cap ==> DequeAppend(w, x, cap) == w + [x]
  {
  }

  /** The text of a sequence of entries written one after another, in order. */
  function Concat(entries: seq<string>): (text: string)
    ensures entries != [] ==> |entries[0]| <= |text| && text[..|entries[0]|] == entries[0]
    ensures entries != [] ==> var last := entries[|entries| - 1];
      |last| <= |text| && text[|text| - |last|..] == last
  {
    if entries == [] then "" else entries[0] + Concat(entries[1..])
  }

  /** Writing one more entry extends the text by exactly that entry. */
  lemma {:induction false} ConcatSnoc(entries: seq<string>, x: string)
    ensures Concat(entries + [x]) == Concat(entries) + x
  {
    if entries != [] {
      assert (entries + [x])[1..] == entries[1..] + [x];
      ConcatSnoc(entries[1..], x);
    }
  }
}
