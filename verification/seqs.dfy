/** Small facts about sequences that several parts of the model use. */
module Seqs {

  /** Concatenation is associative. */
  lemma AppendAssoc<T>(a: seq<T>, b: seq<T>, c: seq<T>)
    ensures (a + b) + c == a + (b + c)
  {
  }

  /** A sequence that starts with `pre`, is at most one longer, and has `x` after `pre` is `pre + [x]`. */
  lemma ExtendedByOne<T>(s: seq<T>, pre: seq<T>, x: T)
    requires |pre| <= |s| <= |pre| + 1 && s[..|pre|] == pre && x in s[|pre|..]
    ensures s == pre + [x]
  {
    assert s == s[..|pre|] + s[|pre|..];
  }

  /** A sequence that starts with `pre` and has exactly `x` and `y` after it is `pre + [x, y]`. */
  lemma ExtendedByTwo<T>(s: seq<T>, pre: seq<T>, x: T, y: T)
    requires |s| == |pre| + 2 && s[..|pre|] == pre && s[|pre|] == x && s[|pre| + 1] == y
    ensures s == pre + [x, y]
  {
    assert s == s[..|pre|] + [x, y];
  }

  /** Equal sequences that start with the same prefix agree after it. */
  lemma PrefixCancel<T>(p: seq<T>, a: seq<T>, b: seq<T>)
    requires p + a == p + b
    ensures a == b
  {
    assert a == (p + a)[|p|..];
  }

  /** Five concatenated pieces and a tail, regrouped from the right. */
  lemma RightNested<T>(a: seq<T>, b: seq<T>, c: seq<T>, d: seq<T>, e: seq<T>, x: seq<T>)
    ensures a + b + c + d + e + x == a + (b + (c + (d + (e + x))))
  {
    AppendAssoc(a + b + c + d, e, x);
    AppendAssoc(a + b + c, d, e + x);
    AppendAssoc(a + b, c, d + (e + x));
    AppendAssoc(a, b, c + (d + (e + x)));
  }
}
