/** Option type and sequence facts shared by the modules of this model. */
module Common {

  datatype Option<+T> = None | Some(value: T)

  /** A slice that lies inside the left operand of a concatenation. */
  lemma SliceLeft<T>(a: seq<T>, b: seq<T>, i: nat, j: nat)
    requires i <= j <= |a|
    ensures (a + b)[i..j] == a[i..j]
  {
  }

  /** A slice that lies inside the right operand of a concatenation. */
  lemma SliceRight<T>(a: seq<T>, b: seq<T>, i: nat, j: nat)
    requires |a| <= i <= j <= |a| + |b|
    ensures (a + b)[i..j] == b[i - |a|..j - |a|]
  {
  }

  /** A whole sequence as a slice of itself. */
  lemma SliceAll<T>(a: seq<T>)
    ensures a[0..|a|] == a
  {
  }

  /** Concatenation is associative. */
  lemma ConcatAssoc<T>(a: seq<T>, b: seq<T>, c: seq<T>)
    ensures a + b + c == a + (b + c)
  {
  }

  /** A sequence laid out as a prefix, one element and a suffix equals any
      sequence built from the same three pieces. */
  lemma Splice<T>(xs: seq<T>, lead: seq<T>, y: T, rest: seq<T>, whole: seq<T>)
    requires |lead| < |xs| && xs[..|lead|] == lead && xs[|lead|] == y && xs[|lead| + 1..] == rest
    requires whole == lead + [y] + rest
    ensures xs == whole
  {
  }

  /** A sequence whose first two elements are `x` and `y` and whose rest is
      `rest` is `[x] + [y] + rest`. */
  lemma SpliceTwo<T>(xs: seq<T>, x: T, y: T, rest: seq<T>, whole: seq<T>)
    requires |xs| >= 2 && xs[0] == x && xs[1] == y && xs[2..] == rest
    requires whole == [x] + [y] + rest
    ensures xs == whole
  {
    assert xs == [xs[0]] + [xs[1]] + xs[2..];
  }

  /** Appending three sequences at once or one after the other agree. */
  lemma ConcatAssocFour<T>(a: seq<T>, b: seq<T>, c: seq<T>, d: seq<T>)
    ensures a + (b + c + d) == a + b + c + d
  {
  }

  /** A suffix cut at two later points. */
  lemma SliceSplit<T>(s: seq<T>, a: nat, b: nat, c: nat)
    requires a <= b <= c <= |s|
    ensures s[a..] == s[a..b] + s[b..c] + s[c..]
  {
  }

  /** A middle sequence framed by a head and a tail: the head opens the whole,
      the tail closes it, and a slice of the middle reappears shifted by the head. */
  lemma Framing<T>(head: seq<T>, body: seq<T>, tail: seq<T>, o: nat, n: nat)
    requires o + n <= |body|
    ensures |head| + o + n <= |head + body + tail|
    ensures (head + body + tail)[..|head|] == head
    ensures (head + body + tail)[|head| + o..|head| + o + n] == body[o..o + n]
    ensures (head + body + tail)[|head + body + tail| - |tail|..] == tail
  {
    SliceLeft(head + body, tail, |head| + o, |head| + o + n);
    SliceRight(head, body, |head| + o, |head| + o + n);
  }

  /** A slice of the back part of a concatenation, seen in the whole. */
  lemma SliceOfBack<T>(whole: seq<T>, front: seq<T>, back: seq<T>, e: nat, n: nat, x: seq<T>)
    requires whole == front + back && e + n <= |back| && back[e..e + n] == x
    ensures |front| + e + n <= |whole| && whole[|front| + e..|front| + e + n] == x
  {
    SliceRight(front, back, |front| + e, |front| + e + n);
  }

  /** A non-empty sequence is its front followed by its last element. */
  lemma SplitLast<T>(xs: seq<T>)
    requires xs != []
    ensures xs[..|xs| - 1] + [xs[|xs| - 1]] == xs
  {
  }

  /** Replacing the front of a concatenation by an equal sequence. */
  lemma Replace<T>(x: seq<T>, a: seq<T>, b: seq<T>, y: seq<T>, z: seq<T>)
    requires x == a + y + z && a == b
    ensures x == b + y + z
  {
  }
}
