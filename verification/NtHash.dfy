/** The NT hash: MD4 of a password in UTF-16, little-endian, without a byte-order mark: identity.go. */
module NtHash {
  import opened Basics
  import opened Md4

  /** utf16.Encode of one rune: itself, or a surrogate pair (section 2.1 of RFC 2781). */
  function Units(c: char): seq<nat> {
    var n := c as int;
    if n < 0x1_0000 then [n]
    else [0xD800 + (n - 0x1_0000) / 0x400, 0xDC00 + (n - 0x1_0000) % 0x400]
  }

  function UnitBytes(us: seq<nat>): seq<Byte> {
    if us == [] then [] else [us[0] % 256, us[0] / 256 % 256] + UnitBytes(us[1..])
  }

  /** The bytes are those of the units in turn, low byte first. */
  lemma {:induction false} UnitBytesAt(us: seq<nat>, i: nat)
    requires i < |us|
    ensures |UnitBytes(us)| == 2 * |us|
    ensures UnitBytes(us)[2 * i] == us[i] % 256 && UnitBytes(us)[2 * i + 1] == us[i] / 256 % 256
  {
    var rest := UnitBytes(us[1..]);
    UnitBytesLength(us);
    UnitBytesLength(us[1..]);
    if i > 0 {
      UnitBytesAt(us[1..], i - 1);
      assert UnitBytes(us)[2 * i] == rest[2 * (i - 1)] && UnitBytes(us)[2 * i + 1] == rest[2 * (i - 1) + 1];
    }
  }

  lemma {:induction false} UnitBytesLength(us: seq<nat>)
    ensures |UnitBytes(us)| == 2 * |us|
  {
    if us != [] {
      UnitBytesLength(us[1..]);
    }
  }

  /** A rune above the first plane is a high surrogate and then a low one, ten bits in each. */
  lemma UnitsMeaning(c: char)
    ensures (c as int) < 0x1_0000 ==> Units(c) == [c as int]
    ensures c as int >= 0x1_0000 ==>
              && |Units(c)| == 2 && 0xD800 <= Units(c)[0] < 0xDC00 && 0xDC00 <= Units(c)[1] < 0xE000
              && c as int == 0x1_0000 + (Units(c)[0] - 0xD800) * 0x400 + (Units(c)[1] - 0xDC00)
  {}

  function Utf16(s: string): seq<nat> {
    if s == "" then [] else Units(s[0]) + Utf16(s[1..])
  }

  /** What utf16le returns. */
  function Utf16Le(s: string): seq<Byte> {
    UnitBytes(Utf16(s))
  }

  lemma {:induction false} UnitsInRange(s: string)
    ensures forall i :: 0 <= i < |Utf16(s)| ==> Utf16(s)[i] < 0x1_0000
  {
    if s != "" {
      UnitsInRange(s[1..]);
    }
  }

  lemma {:induction false} UnitBytesInjective(us: seq<nat>, vs: seq<nat>)
    requires forall i :: 0 <= i < |us| ==> us[i] < 0x1_0000
    requires forall i :: 0 <= i < |vs| ==> vs[i] < 0x1_0000
    requires UnitBytes(us) == UnitBytes(vs)
    ensures us == vs
  {
    if us != [] && vs != [] {
      var p, q := UnitBytes(us), UnitBytes(vs);
      assert p[0] == q[0] && p[1] == q[1];
      assert p[2..] == UnitBytes(us[1..]) && q[2..] == UnitBytes(vs[1..]);
      UnitBytesInjective(us[1..], vs[1..]);
      assert us == [us[0]] + us[1..] && vs == [vs[0]] + vs[1..];
    }
  }

  /** A rune is not a surrogate, so a first unit that is one says that a second follows. */
  lemma UnitsPrefix(c: char, d: char, x: seq<nat>, y: seq<nat>)
    requires Units(c) + x == Units(d) + y
    ensures c == d && x == y
  {
    var p, q := Units(c) + x, Units(d) + y;
    assert p[0] == q[0];
    assert |Units(c)| == |Units(d)|;
    if |Units(c)| == 2 {
      assert p[1] == q[1];
      assert x == p[2..] && y == q[2..];
    } else {
      assert x == p[1..] && y == q[1..];
    }
    assert c as int == d as int;
  }

  lemma {:induction false} Utf16Injective(s: string, t: string)
    requires Utf16(s) == Utf16(t)
    ensures s == t
  {
    if s != "" && t != "" {
      UnitsPrefix(s[0], t[0], Utf16(s[1..]), Utf16(t[1..]));
      Utf16Injective(s[1..], t[1..]);
      assert s == [s[0]] + s[1..] && t == [t[0]] + t[1..];
    }
  }

  /** Two passwords are one message to MD4 only when they are one password. */
  lemma EncodingInjective(s: string, t: string)
    ensures Utf16Le(s) == Utf16Le(t) <==> s == t
  {
    if Utf16Le(s) == Utf16Le(t) {
      UnitsInRange(s);
      UnitsInRange(t);
      UnitBytesInjective(Utf16(s), Utf16(t));
      Utf16Injective(s, t);
    }
  }

  method EncodeUtf16Le(s: string) returns (out: seq<Byte>)
    ensures out == Utf16Le(s)
  {
    var units := Utf16(s);
    out := [];
    UnitsInRange(s);
    for i := 0 to |units|
      invariant out + UnitBytes(units[i..]) == UnitBytes(units)
    {
      var u := units[i];
      assert units[i..][0] == u && units[i..][1..] == units[i + 1..];
      Regroup(out, [u % 256, u / 256 % 256], UnitBytes(units[i + 1..]));
      out := out + [u % 256, u / 256 % 256];
    }
    assert UnitBytes(units[|units|..]) == [];
  }

  method NtHashOf(password: string) returns (hash: seq<Byte>)
    ensures hash == Md4Of(Utf16Le(password)) && |hash| == 16
  {
    var units := EncodeUtf16Le(password);
    hash := Md4Sum(units);
  }
}
