/**
 * The key under which the private log between two connection handles is
 * stored: the two handles, sorted, joined with a dash.
 */
module Conversation {
  import opened Strings

  /**
   * Sorting the pair moves `b` in front only when it is strictly smaller; the
   * key is the dash-join of the two with the smaller (or equal) handle first.
   */
  function ConversationId(a: string, b: string): (k: string)
    ensures (k == a + "-" + b && !LexLess(b, a)) || (k == b + "-" + a && !LexLess(a, b))
  {
    LexLessAsymmetric(a, b);
    if LexLess(b, a) then b + "-" + a else a + "-" + b
  }

  /** The key is order-independent. */
  lemma ConversationIdSymmetric(a: string, b: string)
    ensures ConversationId(a, b) == ConversationId(b, a)
  {
    if a != b {
      LexLessTotal(a, b);
      LexLessAsymmetric(a, b);
    }
  }

  /** A dash-join splits back into its parts once the length of the first part is known. */
  lemma {:induction false} JoinInjective(x: string, y: string, u: string, v: string)
    requires x + "-" + y == u + "-" + v
    requires |x| == |u|
    ensures x == u && y == v
  {
    var s := x + "-" + y;
    assert x == s[..|x|];
    assert u == s[..|u|];
    assert y == s[|x| + 1..];
    assert v == s[|u| + 1..];
  }

  /**
   * For handles of one common length (the transport issues fixed-length ids)
   * equal keys mean the same unordered pair.
   */
  lemma ConversationIdInjective(a: string, b: string, c: string, d: string)
    requires |a| == |b| == |c| == |d|
    requires ConversationId(a, b) == ConversationId(c, d)
    ensures (a == c && b == d) || (a == d && b == c)
  {
    if LexLess(b, a) {
      if LexLess(d, c) { JoinInjective(b, a, d, c); } else { JoinInjective(b, a, c, d); }
    } else {
      if LexLess(d, c) { JoinInjective(a, b, d, c); } else { JoinInjective(a, b, c, d); }
    }
  }

  /** For handles of different lengths the dash-join can collide. */
  lemma ConversationIdCollision()
    ensures ConversationId("a-b", "c") == ConversationId("a", "b-c") == "a-b-c"
  {
  }
}
