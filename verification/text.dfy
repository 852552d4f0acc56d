/** Whitespace trimming of the todo text typed into the search bar. */
module Text {

  /** Characters with the Unicode White_Space property: the whitespace and
      newline characters trimmed from both ends of new todo text. */
  predicate IsWhitespace(c: char)
  {
    var n := c as int;
    || 0x09 <= n <= 0x0D
    || n == 0x20
    || n == 0x85
    || n == 0xA0
    || n == 0x1680
    || 0x2000 <= n <= 0x200A
    || n == 0x2028
    || n == 0x2029
    || n == 0x202F
    || n == 0x205F
    || n == 0x3000
  }

  predicate AllWhitespace(s: string)
  {
    forall i :: 0 <= i < |s| ==> IsWhitespace(s[i])
  }

  /** Number of whitespace characters at the front of `s`. */
  function LeadingWhitespace(s: string): (n: nat)
    ensures n <= |s| && AllWhitespace(s[..n])
    ensures n == |s| || !IsWhitespace(s[n])
  {
    if |s| > 0 && IsWhitespace(s[0]) then
      var m := LeadingWhitespace(s[1..]);
      assert s[..m + 1] == [s[0]] + s[1..][..m];
      m + 1
    else 0
  }

  /** Index where the whitespace at the back of `s` begins. */
  function TrailingWhitespace(s: string): (n: nat)
    ensures n <= |s| && AllWhitespace(s[n..])
    ensures n == 0 || !IsWhitespace(s[n - 1])
  {
    if |s| > 0 && IsWhitespace(s[|s| - 1]) then
      var init := s[..|s| - 1];
      var m := TrailingWhitespace(init);
      assert s[m..] == init[m..] + [s[|s| - 1]];
      m
    else |s|
  }

  /** Drops whitespace from both ends: the result is a contiguous slice of
      the input, everything cut away is whitespace, the result neither
      starts nor ends with whitespace, and it is empty exactly when the
      input is all whitespace. */
  function Trim(s: string): (r: string)
    ensures exists i :: 0 <= i <= i + |r| <= |s| && r == s[i..i + |r|]
                        && AllWhitespace(s[..i]) && AllWhitespace(s[i + |r|..])
    ensures r == [] || (!IsWhitespace(r[0]) && !IsWhitespace(r[|r| - 1]))
    ensures r == [] <==> AllWhitespace(s)
  {
    var i := LeadingWhitespace(s);
    if i == |s| then
      assert s[..i] == s && s[i..] == [];
      []
    else
      var j := TrailingWhitespace(s);
      assert forall k :: j <= k < |s| ==> IsWhitespace(s[k]) by {
        forall k | j <= k < |s|
          ensures IsWhitespace(s[k])
        {
          assert s[k] == s[j..][k - j];
        }
      }
      var r := s[i..j];
      assert s[i..i + |r|] == r;
      assert !AllWhitespace(s) by {
        assert !IsWhitespace(s[i]);
      }
      r
  }

}
