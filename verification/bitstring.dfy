/** Reading binary digits out of arbitrary text: which characters count as
    bits, the bits a character sequence carries, and the test that decides
    whether a command-line argument is a literal bit string. */
module BitString {
  import opened Bytes

  /** Only '0' and '1' carry meaning; every other character is skipped. */
  predicate IsBit(c: char) {
    c == '0' || c == '1'
  }

  /** The value a meaningful character contributes: the packing loop ORs in
      a one for '1' and leaves the shifted-in zero for anything else. */
  function BitOf(c: char): Bit {
    if c == '1' then 1 else 0
  }

  /** The characters of `s` that are bits, in order. */
  function Meaningful(s: seq<char>): (m: seq<char>)
    ensures |m| <= |s|
    ensures forall i :: 0 <= i < |m| ==> IsBit(m[i])
    ensures (forall i :: 0 <= i < |s| ==> IsBit(s[i])) ==> m == s
  {
    if |s| == 0 then []
    else
      var last := s[|s| - 1];
      Meaningful(s[..|s| - 1]) + (if IsBit(last) then [last] else [])
  }

  /** The meaningful bits of `s`, in order, as values. This is the filter
      of `Meaningful` and the digit map `BitOf` fused into one recursion, so
      that facts about appending text (`BitsAppend`, `BitsSnoc`) are proved
      on `Bits` directly; `BitsMatchMeaningful` shows the two agree. */
  function Bits(s: seq<char>): seq<Bit> {
    if |s| == 0 then []
    else
      var last := s[|s| - 1];
      Bits(s[..|s| - 1]) + (if IsBit(last) then [BitOf(last)] else [])
  }

  /** The bits are the digits of the meaningful characters, one for one. */
  lemma {:induction false} BitsMatchMeaningful(s: seq<char>)
    ensures |Bits(s)| == |Meaningful(s)|
    ensures forall i :: 0 <= i < |Bits(s)| ==> Bits(s)[i] == BitOf(Meaningful(s)[i])
    decreases |s|
  {
    if |s| > 0 {
      BitsMatchMeaningful(s[..|s| - 1]);
    }
  }

  /** Appending text appends its bits. */
  lemma {:induction false} BitsAppend(a: seq<char>, b: seq<char>)
    ensures Bits(a + b) == Bits(a) + Bits(b)
    decreases |b|
  {
    if |b| == 0 {
      assert a + b == a;
    } else {
      var b' := b[..|b| - 1];
      assert (a + b)[..|a + b| - 1] == a + b';
      assert b[..|b| - 1] == b';
      BitsAppend(a, b');
    }
  }

  /** Reading one more character appends that character's bits. */
  lemma BitsSnoc(s: seq<char>, i: nat)
    requires i < |s|
    ensures Bits(s[..i + 1]) == Bits(s[..i]) + Bits([s[i]])
  {
    assert s[..i + 1] == s[..i] + [s[i]];
    BitsAppend(s[..i], [s[i]]);
  }

  /** A character that is not a bit, wherever it stands, changes nothing. */
  lemma NonBitIgnored(a: seq<char>, c: char, b: seq<char>)
    requires !IsBit(c)
    ensures Bits(a + [c] + b) == Bits(a + b)
  {
    BitsAppend(a + [c], b);
    BitsAppend(a, [c]);
    BitsAppend(a, b);
    assert [c][..0] == [];
  }

  /** Filtering out the non-bit characters first leaves the bits unchanged. */
  lemma BitsOfMeaningful(s: seq<char>)
    ensures Bits(Meaningful(s)) == Bits(s)
  {
    var m := Meaningful(s);
    assert Meaningful(m) == m;
    BitsMatchMeaningful(s);
    BitsMatchMeaningful(m);
  }

  /** `isBitString`: the argument is non-empty and made only of '0' and '1'. */
  method IsBitString(s: seq<char>) returns (b: bool)
    ensures b <==> |s| > 0 && forall i :: 0 <= i < |s| ==> IsBit(s[i])
  {
    if |s| == 0 {
      return false;
    }
    for i := 0 to |s|
      invariant forall j :: 0 <= j < i ==> IsBit(s[j])
    {
      if !IsBit(s[i]) {
        return false;
      }
    }
    return true;
  }

  /** On a literal bit string the filter skips nothing: there is one bit per
      character, equal to that character's digit. */
  lemma {:induction false} LiteralSkipsNothing(s: seq<char>)
    requires |s| > 0 && forall i :: 0 <= i < |s| ==> IsBit(s[i])
    ensures Meaningful(s) == s
    ensures |Bits(s)| == |s|
    ensures forall i :: 0 <= i < |s| ==> Bits(s)[i] == BitOf(s[i])
  {
    BitsMatchMeaningful(s);
  }
}
