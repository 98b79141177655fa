/** The check `rxData.decode("utf-8")` applies before it returns a string (line 220). The
    firmware runs on MicroPython, whose check is structural: a lead byte below 0xF8 announces
    from its high bits how many continuation bytes `10xxxxxx` follow, and every announced
    continuation byte must be present. It does not reject overlong forms, surrogates or
    code points above U+10FFFF as RFC 3629 does. */
module Utf8 {
  import opened Wrappers
  import opened Bytes

  /** `b` lies in `lo..hi`. */
  predicate InRange(b: byte, lo: byte, hi: byte) {
    lo <= b <= hi
  }

  /** A continuation byte `10xxxxxx`. */
  predicate Tail(b: byte) {
    InRange(b, 0x80, 0xBF)
  }

  /** How many continuation bytes a byte announces when it starts a character: none for
      ASCII, 1 for `110xxxxx`, 2 for `1110xxxx`, 3 for `11110xxx`. Continuation bytes and
      0xF8..0xFF cannot start a character. */
  function Announced(b: byte): (k: Option<nat>)
    ensures b < 0x80 <==> k == Some(0)
    ensures k.None? <==> Tail(b) || b >= 0xF8
    ensures InRange(b, 0xC0, 0xDF) ==> k == Some(1)
    ensures InRange(b, 0xE0, 0xEF) ==> k == Some(2)
    ensures InRange(b, 0xF0, 0xF7) ==> k == Some(3)
  {
    if b < 0x80 then Some(0)
    else if InRange(b, 0xC0, 0xDF) then Some(1)
    else if InRange(b, 0xE0, 0xEF) then Some(2)
    else if InRange(b, 0xF0, 0xF7) then Some(3)
    else None
  }

  /** Length of the character that starts `s`, or 0 when `s` does not start with one: the
      lead byte must be able to start a character, and the continuation bytes it announces
      must all be present. */
  function CharWidth(s: seq<byte>): (n: nat)
    requires |s| > 0
    ensures n <= 4 && n <= |s|
    ensures s[0] < 0x80 <==> n == 1
    ensures n > 0 <==> Announced(s[0]).Some? && Announced(s[0]).value < |s|
                       && forall i | 1 <= i <= Announced(s[0]).value :: Tail(s[i])
    ensures n > 0 ==> n == Announced(s[0]).value + 1
  {
    match Announced(s[0])
    case None => 0
    case Some(k) =>
      if k < |s| && forall i | 1 <= i <= k :: Tail(s[i]) then k + 1 else 0
  }

  /** `s` is a sequence of complete characters: what the check accepts. A non-empty
      accepted sequence starts with a byte that can start a character and ends with an
      ASCII byte or a continuation byte, never with a lead still waiting for its tail. */
  predicate ValidUtf8(s: seq<byte>)
    ensures ValidUtf8(s) && s != [] ==> Announced(s[0]).Some?
    ensures ValidUtf8(s) && s != [] ==> s[|s| - 1] < 0x80 || Tail(s[|s| - 1])
    decreases |s|
  {
    s == [] || (CharWidth(s) > 0 && ValidUtf8(s[CharWidth(s)..]))
  }

  /** The continuation count MicroPython computes from a lead byte `c` in `0xC0..0xF7`:
      bits 4 and 5 of `c` select one of the 2-bit fields of the constant `0xE5`. */
  function Need(c: byte): nat {
    var b := c as bv8;
    ((0xE5 as bv8 >> ((b >> 3) & 6)) & 3) as nat
  }

  /** The check as MicroPython writes it: a scan over the bytes with a count `need` of
      continuation bytes still owed by the last lead. */
  predicate NeedCheck(s: seq<byte>, need: nat)
    decreases |s|
  {
    if s == [] then need == 0
    else if need > 0 then Tail(s[0]) && NeedCheck(s[1..], need - 1)
    else if s[0] >= 0xC0 then s[0] < 0xF8 && NeedCheck(s[1..], Need(s[0]))
    else if s[0] >= 0x80 then false
    else NeedCheck(s[1..], 0)
  }

  /** The bit trick agrees with the lead-byte table. */
  lemma NeedIsAnnounced(c: byte)
    requires InRange(c, 0xC0, 0xF7)
    ensures Announced(c) == Some(Need(c))
  {
  }

  /** Owing `need` continuation bytes, the scan succeeds exactly when the next `need`
      bytes are continuation bytes and the scan from there on, owing none, succeeds. */
  lemma {:induction false} NeedCheckOwed(s: seq<byte>, need: nat)
    requires need > 0
    ensures NeedCheck(s, need) <==>
              need <= |s| && (forall i | 0 <= i < need :: Tail(s[i])) && NeedCheck(s[need..], 0)
    decreases need
  {
    if s != [] && need > 1 {
      NeedCheckOwed(s[1..], need - 1);
      if need <= |s| {
        assert s[1..][need - 1..] == s[need..];
        forall i | 1 <= i < need ensures s[1..][i - 1] == s[i] {}
      }
    }
  }

  /** The recursive definition is MicroPython's check: the two agree on every input. */
  lemma {:induction false} ValidIsNeedCheck(s: seq<byte>)
    ensures ValidUtf8(s) <==> NeedCheck(s, 0)
    decreases |s|
  {
    if s != [] {
      var c := s[0];
      if c < 0x80 {
        ValidIsNeedCheck(s[1..]);
      } else if InRange(c, 0xC0, 0xF7) {
        NeedIsAnnounced(c);
        var k := Need(c);
        NeedCheckOwed(s[1..], k);
        if k < |s| {
          assert s[1..][k..] == s[k + 1..];
          ValidIsNeedCheck(s[k + 1..]);
          assert (forall i | 0 <= i < k :: Tail(s[1..][i])) <==>
                 (forall i | 1 <= i <= k :: Tail(s[i])) by {
            forall i | 1 <= i <= k ensures s[1..][i - 1] == s[i] {}
          }
        }
      }
    }
  }

  /** The check looks at the shape of the bytes only: an overlong two-byte form, an
      encoded surrogate and a four-byte form beyond U+10FFFF all pass. */
  lemma StructuralOnly()
    ensures ValidUtf8([0xC0, 0x80])
    ensures ValidUtf8([0xED, 0xA0, 0x80])
    ensures ValidUtf8([0xF5, 0x80, 0x80, 0x80])
  {
  }

  /** What the check rejects: a stray continuation byte, a lead of 0xF8 or above, and a
      lead whose announced continuation bytes are cut short. */
  lemma StructuralRejects()
    ensures !ValidUtf8([0x80])
    ensures !ValidUtf8([0xF8, 0x80, 0x80, 0x80])
    ensures !ValidUtf8([0xE0, 0x80])
    ensures !ValidUtf8([0xC3, 0x41])
  {
  }

  /** Every ASCII byte sequence is well-formed UTF-8. */
  lemma {:induction false} AsciiIsValid(s: seq<byte>)
    requires IsAscii(s)
    ensures ValidUtf8(s)
    decreases |s|
  {
    if s != [] {
      assert CharWidth(s) == 1;
      AsciiIsValid(s[1..]);
    }
  }

  /** Well-formedness is closed under concatenation. */
  lemma {:induction false} AppendValid(a: seq<byte>, b: seq<byte>)
    requires ValidUtf8(a) && ValidUtf8(b)
    ensures ValidUtf8(a + b)
    decreases |a|
  {
    if a == [] {
      assert a + b == b;
    } else {
      var n := CharWidth(a);
      var c := a + b;
      assert c[..|a|] == a;
      CharWidthPrefix(a, c);
      assert c[n..] == a[n..] + b by {
        assert 0 < n <= |a|;
        forall i | 0 <= i < |c| - n
          ensures c[n..][i] == (a[n..] + b)[i]
        {
          if i < |a| - n {
            assert c[n + i] == a[n + i];
          }
        }
      }
      AppendValid(a[n..], b);
    }
  }

  /** The width of the first character depends only on its own bytes. */
  lemma CharWidthPrefix(a: seq<byte>, c: seq<byte>)
    requires |a| > 0 && CharWidth(a) > 0
    requires |a| <= |c| && c[..|a|] == a
    ensures CharWidth(c) == CharWidth(a)
  {
    assert forall i | 0 <= i < |a| :: c[i] == a[i];
  }

  /** A character that fits inside `a` is read the same from any extension of `a`. */
  lemma CharWidthShorter(a: seq<byte>, c: seq<byte>)
    requires |a| > 0 && |a| <= |c| && c[..|a|] == a
    requires 0 < CharWidth(c) <= |a|
    ensures CharWidth(a) == CharWidth(c)
  {
    assert forall i | 0 <= i < |a| :: c[i] == a[i];
  }

  /** Appending the terminator does not change whether the bytes decode: decoding the
      record with its carriage return succeeds exactly when decoding the bytes before it
      does. */
  lemma {:induction false} TerminatorKeepsValidity(s: seq<byte>)
    ensures ValidUtf8(s + [CR]) <==> ValidUtf8(s)
    decreases |s|
  {
    if ValidUtf8(s) {
      AsciiIsValid([CR]);
      AppendValid(s, [CR]);
    } else if ValidUtf8(s + [CR]) {
      assert s != [];
      var c := s + [CR];
      var n := CharWidth(c);
      assert c[..|s|] == s;
      CharWidthShorter(s, c);
      assert c[n..] == s[n..] + [CR];
      TerminatorKeepsValidity(s[n..]);
    }
  }
}
