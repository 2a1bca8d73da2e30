/** Locating the flow keyword on a line of text (`prefixIndex`). */
module Text {
  import opened Strings

  /**
    The index of the first `prefix-` on the line; when there is none, the
    index of the first `prefix -`; and -1 when neither occurs.
  */
  function PrefixIndex(lineText: string, prefix: string): (r: int)
    ensures (exists k :: OccursAt(lineText, prefix + "-", k)) ==>
              r >= 0 && OccursAt(lineText, prefix + "-", r)
              && forall k :: 0 <= k < r ==> !OccursAt(lineText, prefix + "-", k)
    ensures (forall k :: !OccursAt(lineText, prefix + "-", k)) ==>
              r == IndexOf(lineText, prefix + " -")
    ensures r == -1 <==>
              (forall k :: !OccursAt(lineText, prefix + "-", k)) && (forall k :: !OccursAt(lineText, prefix + " -", k))
    ensures r >= 0 ==> OccursAt(lineText, prefix, r)
  {
    var i1 := IndexOf(lineText, prefix + "-");
    var i2 := IndexOf(lineText, prefix + " -");
    if i1 >= 0 then
      OccursAtPrefix(lineText, prefix, "-", i1);
      i1
    else if i2 >= 0 then
      OccursAtPrefix(lineText, prefix, " -", i2);
      i2
    else
      i2
  }

  /** An occurrence of `a + b` is an occurrence of `a`. */
  lemma OccursAtPrefix(s: string, a: string, b: string, k: nat)
    requires OccursAt(s, a + b, k)
    ensures OccursAt(s, a, k)
  {
    assert s[k..k + |a|] == (a + b)[..|a|];
  }
}
