/** The Sign in with Apple nonce: a random string drawn from a 64-character
    alphabet by rejection sampling, and the lower-case hexadecimal spelling
    of a digest. The random source is an input stream of bytes; the digest
    itself is an input too. */
module Nonce {
  import opened Optional

  newtype byte = x: int | 0 <= x < 256

  /** The nonce alphabet, as `LoginViewController` spells it: digits, the upper-case
      letters without `W`, the lower-case letters, and `-._`. */
  const Charset: string := "0123456789ABCDEFGHIJKLMNOPQRSTUVXYZabcdefghijklmnopqrstuvwxyz-._"

  /** Number of characters in the alphabet (64): a byte is kept exactly
      when it is below this. */
  const AlphabetSize: byte := |Charset| as byte

  /** A byte the generator keeps: an index into the alphabet. */
  type Kept = b: byte | b < AlphabetSize

  /** Bytes drawn from the random source per round. */
  const BatchSize: nat := 16

  /** The bytes the generator keeps, in stream order: those below the
      alphabet's size. Every other byte is rejected. */
  function AcceptedBytes(bytes: seq<byte>): (r: seq<Kept>)
    ensures |r| <= |bytes|
  {
    if |bytes| == 0 then []
    else
      var b := bytes[|bytes| - 1];
      AcceptedBytes(bytes[..|bytes| - 1]) + (if b < AlphabetSize then [b as Kept] else [])
  }

  /** Every byte of a stream is kept exactly when all are below the
      alphabet's size. */
  lemma {:induction false} KeepsAll(bytes: seq<byte>)
    ensures |AcceptedBytes(bytes)| == |bytes| <==> forall i :: 0 <= i < |bytes| ==> bytes[i] < AlphabetSize
  {
    if |bytes| > 0 {
      var init, b := bytes[..|bytes| - 1], bytes[|bytes| - 1];
      KeepsAll(init);
      if b < AlphabetSize {
        assert forall i :: 0 <= i < |init| ==> bytes[i] == init[i];
      } else {
        assert |AcceptedBytes(bytes)| <= |init|;
      }
    }
  }

  /** No byte of a stream is kept exactly when none is below the
      alphabet's size. */
  lemma {:induction false} KeepsNone(bytes: seq<byte>)
    ensures AcceptedBytes(bytes) == [] <==> forall i :: 0 <= i < |bytes| ==> bytes[i] >= AlphabetSize
  {
    if |bytes| > 0 {
      var init, b := bytes[..|bytes| - 1], bytes[|bytes| - 1];
      KeepsNone(init);
      if b >= AlphabetSize {
        assert forall i :: 0 <= i < |init| ==> bytes[i] == init[i];
      } else {
        assert |AcceptedBytes(bytes)| > 0;
      }
    }
  }

  /** A byte below the alphabet's size is kept exactly when it occurs in
      the stream. */
  lemma {:induction false} AcceptedMembers(bytes: seq<byte>, x: Kept)
    ensures x in AcceptedBytes(bytes) <==> x as byte in bytes
  {
    if |bytes| > 0 {
      var init := bytes[..|bytes| - 1];
      AcceptedMembers(init, x);
      assert bytes == init + [bytes[|bytes| - 1]];
    }
  }

  /** Accepting is decided byte by byte, so it distributes over
      concatenation. */
  lemma {:induction false} AcceptedConcat(a: seq<byte>, b: seq<byte>)
    ensures AcceptedBytes(a + b) == AcceptedBytes(a) + AcceptedBytes(b)
  {
    if |b| == 0 {
      assert a + b == a;
    } else {
      assert (a + b)[..|a + b| - 1] == a + b[..|b| - 1];
      AcceptedConcat(a, b[..|b| - 1]);
    }
  }

  /** Reading more of the stream only extends what has been kept. */
  lemma {:induction false} AcceptedPrefix(bytes: seq<byte>, k: nat)
    requires k <= |bytes|
    ensures AcceptedBytes(bytes[..k]) <= AcceptedBytes(bytes)
  {
    assert bytes == bytes[..k] + bytes[k..];
    AcceptedConcat(bytes[..k], bytes[k..]);
  }

  /** One more byte is kept exactly when it is below the alphabet's size,
      and a rejected byte adds nothing. */
  lemma AcceptedStep(bytes: seq<byte>, k: nat)
    requires k < |bytes|
    ensures AcceptedBytes(bytes[..k + 1])
            == AcceptedBytes(bytes[..k]) + (if bytes[k] < AlphabetSize then [bytes[k] as Kept] else [])
  {
    assert bytes[..k + 1][..k] == bytes[..k];
  }

  /** The characters kept bytes select: byte `b` selects `Charset[b]`. */
  function Spell(bs: seq<Kept>): (r: string)
    ensures |r| == |bs|
  {
    seq(|bs|, i requires 0 <= i < |bs| => Charset[bs[i]])
  }

  /** Every character a nonce is spelled with is in the alphabet. */
  lemma SpellInCharset(bs: seq<Kept>)
    ensures forall i :: 0 <= i < |bs| ==> Spell(bs)[i] in Charset
  {
  }

  lemma SpellSnoc(bs: seq<Kept>, b: Kept)
    ensures Spell(bs + [b]) == Spell(bs) + [Charset[b]]
  {
  }

  /** At most `n` elements of `s`. */
  function Truncate<T>(s: seq<T>, n: nat): (r: seq<T>)
    ensures |r| <= n
    ensures |s| <= n ==> r == s
  {
    if |s| <= n then s else s[..n]
  }

  /** The first `length` bytes kept from the first `k` bytes of the
      stream: what the generator has picked after reading `k` bytes. */
  ghost function Picked(randoms: seq<byte>, k: nat, length: nat): (r: seq<Kept>)
    requires k <= |randoms|
    ensures |r| <= length
  {
    Truncate(AcceptedBytes(randoms[..k]), length)
  }

  /** One byte further into the stream, the picked bytes grow by that byte
      exactly when it is kept and fewer than `length` were picked before. */
  lemma KeepStep(randoms: seq<byte>, k: nat, length: nat)
    requires k < |randoms|
    ensures Picked(randoms, k + 1, length)
            == if |Picked(randoms, k, length)| < length && randoms[k] < AlphabetSize
               then Picked(randoms, k, length) + [randoms[k] as Kept]
               else Picked(randoms, k, length)
  {
    AcceptedStep(randoms, k);
    var a := AcceptedBytes(randoms[..k]);
    var x: seq<Kept> := if randoms[k] < AlphabetSize then [randoms[k] as Kept] else [];
    if |a| >= length {
      assert (a + x)[..length] == a[..length];
    }
  }

  /** The nonce generator. Rounds of 16 bytes are drawn from `randoms`
      until `length` bytes have been kept; within a round, bytes after the
      nonce is complete are skipped. The nonce spells the first `length`
      kept bytes, and `drawn` is how many bytes the rounds used. When the
      stream cannot supply a whole round before the nonce is complete, the
      result is `None`. */
  method RandomNonceString(length: int, randoms: seq<byte>) returns (result: Option<string>, drawn: nat)
    requires length > 0
    ensures drawn <= |randoms| && drawn % BatchSize == 0
    ensures result.None? <==> |AcceptedBytes(randoms[..|randoms| / BatchSize * BatchSize])| < length
    ensures result.Some? ==> |result.value| == length <= |AcceptedBytes(randoms)|
    ensures result.Some? ==> result.value == Spell(AcceptedBytes(randoms)[..length])
    ensures result.Some? ==> forall i :: 0 <= i < |result.value| ==> result.value[i] in Charset
    ensures result.Some? ==>
      drawn > 0 && |AcceptedBytes(randoms[..drawn - BatchSize])| < length <= |AcceptedBytes(randoms[..drawn])|
  {
    var nonce: string := "";
    var remainingLength := length;
    drawn := 0;
    ghost var rounds: nat := 0;
    ghost var picked: seq<Kept> := [];
    while remainingLength > 0
      invariant drawn == rounds * BatchSize <= |randoms|
      invariant picked == Picked(randoms, drawn, length)
      invariant nonce == Spell(picked)
      invariant remainingLength == length - |nonce|
      invariant drawn > 0 ==> |AcceptedBytes(randoms[..drawn - BatchSize])| < length
      decreases |randoms| - drawn
    {
      if |randoms| - drawn < BatchSize {
        RoundBoundary(|randoms|, rounds);
        return None, drawn;
      }
      nonce, remainingLength, picked := DrawRound(randoms, drawn, length, nonce, remainingLength, picked);
      drawn := drawn + BatchSize;
      rounds := rounds + 1;
    }
    NonceComplete(randoms, drawn, length);
    SpellInCharset(picked);
    result := Some(nonce);
  }

  /** One round of the generator: the 16 bytes from `start` are examined in
      order; each byte below the alphabet's size appends its character while
      the nonce is still short, and every other byte is skipped. */
  method DrawRound(randoms: seq<byte>, start: nat, length: nat, nonce: string, remainingLength: int,
                   ghost picked: seq<Kept>)
    returns (nonce': string, remaining': int, ghost picked': seq<Kept>)
    requires start + BatchSize <= |randoms|
    requires picked == Picked(randoms, start, length)
    requires nonce == Spell(picked)
    requires remainingLength == length - |nonce|
    ensures picked' == Picked(randoms, start + BatchSize, length)
    ensures nonce' == Spell(picked')
    ensures remaining' == length - |nonce'|
  {
    nonce', remaining', picked' := nonce, remainingLength, picked;
    var j := 0;
    while j < BatchSize
      invariant 0 <= j <= BatchSize
      invariant picked' == Picked(randoms, start + j, length)
      invariant nonce' == Spell(picked')
      invariant remaining' == length - |nonce'|
    {
      var random := randoms[start + j];
      KeepStep(randoms, start + j, length);
      if remaining' != 0 {
        if random < AlphabetSize {
          SpellSnoc(picked', random as Kept);
          nonce' := nonce' + [Charset[random]];
          picked' := picked' + [random as Kept];
          remaining' := remaining' - 1;
        }
      }
      j := j + 1;
    }
  }

  /** Once `length` bytes are kept from whole rounds, they are the first
      `length` bytes the whole stream keeps, and every complete round of the
      stream keeps at least as many. */
  lemma {:induction false} NonceComplete(randoms: seq<byte>, drawn: nat, length: nat)
    requires drawn <= |randoms| && drawn % BatchSize == 0
    requires length <= |AcceptedBytes(randoms[..drawn])|
    ensures length <= |AcceptedBytes(randoms)|
    ensures Picked(randoms, drawn, length) == AcceptedBytes(randoms)[..length]
    ensures length <= |AcceptedBytes(randoms[..|randoms| / BatchSize * BatchSize])|
  {
    var whole := |randoms| / BatchSize * BatchSize;
    AcceptedPrefix(randoms, drawn);
    AcceptedPrefix(randoms[..whole], drawn);
    assert randoms[..whole][..drawn] == randoms[..drawn];
  }

  /** A stream with less than a round left after `rounds` rounds holds
      exactly `rounds` whole rounds. */
  lemma RoundBoundary(n: nat, rounds: nat)
    requires rounds * BatchSize <= n < rounds * BatchSize + BatchSize
    ensures n / BatchSize * BatchSize == rounds * BatchSize
  {
  }

  /** The lower-case hexadecimal digit of a value below 16. */
  function HexDigit(n: int): (c: char)
    requires 0 <= n < 16
    ensures IsHexDigit(c) && DigitValue(c) == n
  {
    if n < 10 then (48 + n) as char else (87 + n) as char
  }

  /** `[0-9a-f]`. */
  predicate IsHexDigit(c: char)
  {
    '0' <= c <= '9' || 'a' <= c <= 'f'
  }

  /** The value of a hexadecimal digit; the inverse of `HexDigit`. */
  function DigitValue(c: char): (n: int)
    requires IsHexDigit(c)
    ensures 0 <= n < 16
  {
    if c <= '9' then c as int - 48 else c as int - 87
  }

  /** Every hexadecimal digit is the digit of its own value. */
  lemma DigitValueInverse(c: char)
    requires IsHexDigit(c)
    ensures HexDigit(DigitValue(c)) == c
  {
  }

  /** `%02x` of each digest byte, joined: two lower-case digits per byte,
      high nibble first. */
  function HexString(digest: seq<byte>): (r: string)
    ensures |r| == 2 * |digest|
    ensures forall i :: 0 <= i < |r| ==> IsHexDigit(r[i])
    ensures forall i :: 0 <= i < |digest| ==>
              r[2 * i] == HexDigit(digest[i] as int / 16) && r[2 * i + 1] == HexDigit(digest[i] as int % 16)
  {
    if |digest| == 0 then []
    else
      var b := digest[0] as int;
      var rest := HexString(digest[1..]);
      var r := [HexDigit(b / 16), HexDigit(b % 16)] + rest;
      assert forall i :: 1 <= i < |digest| ==> digest[i] == digest[1..][i - 1];
      assert forall i :: 2 <= i < |r| ==> r[i] == rest[i - 2];
      r
  }

  predicate IsHexString(s: string)
  {
    |s| % 2 == 0 && forall i :: 0 <= i < |s| ==> IsHexDigit(s[i])
  }

  /** Reads a hexadecimal string back into bytes, two digits per byte. */
  function ParseHex(s: string): (r: seq<byte>)
    requires IsHexString(s)
    ensures |r| == |s| / 2
  {
    if |s| == 0 then []
    else
      assert IsHexString(s[2..]) by {
        assert forall i :: 0 <= i < |s[2..]| ==> s[2..][i] == s[i + 2];
      }
      [(16 * DigitValue(s[0]) + DigitValue(s[1])) as byte] + ParseHex(s[2..])
  }

  /** Formatting loses nothing: parsing the digits gives back the digest. */
  lemma {:induction false} ParseHexString(digest: seq<byte>)
    ensures IsHexString(HexString(digest))
    ensures ParseHex(HexString(digest)) == digest
  {
    if |digest| > 0 {
      var h := HexString(digest);
      ParseHexString(digest[1..]);
      assert h[2..] == HexString(digest[1..]);
    }
  }

  /** Every lower-case hexadecimal string of even length is the spelling of
      exactly one byte sequence. */
  lemma {:induction false} HexStringParse(s: string)
    requires IsHexString(s)
    ensures HexString(ParseHex(s)) == s
  {
    if |s| > 0 {
      assert IsHexString(s[2..]) by {
        assert forall i :: 0 <= i < |s[2..]| ==> s[2..][i] == s[i + 2];
      }
      HexStringParse(s[2..]);
      var p := ParseHex(s);
      assert p[1..] == ParseHex(s[2..]);
      var b := p[0] as int;
      assert b / 16 == DigitValue(s[0]) && b % 16 == DigitValue(s[1]);
      DigitValueInverse(s[0]);
      DigitValueInverse(s[1]);
    }
  }

}
