/**
 Base64 (section 5.2 of RFC 1521, section 4 of RFC 4648): common/b64_ntop.c, common/b64_pton.c.
 Shifts, masks and ORs of disjoint bits are written as arithmetic on bytes.
 */
module Base64 {
  import opened Prelude

  type sextet = x: int | 0 <= x < 64

  const PAD := '='

  /** The alphabet of the encoding. */
  function Letter(i: sextet): char {
    if i < 26 then 'A' + i as char
    else if i < 52 then 'a' + (i - 26) as char
    else if i < 62 then '0' + (i - 52) as char
    else if i == 62 then '+' else '/'
  }

  predicate IsLetter(c: char) {
    'A' <= c <= 'Z' || 'a' <= c <= 'z' || '0' <= c <= '9' || c == '+' || c == '/'
  }

  function Digit(c: char): sextet
    requires IsLetter(c)
  {
    if 'A' <= c <= 'Z' then c as int - 'A' as int
    else if 'a' <= c <= 'z' then c as int - 'a' as int + 26
    else if '0' <= c <= '9' then c as int - '0' as int + 52
    else if c == '+' then 62 else 63
  }

  lemma LetterDigit(i: sextet, c: char)
    ensures IsLetter(Letter(i)) && Digit(Letter(i)) == i && Letter(i) != PAD
    ensures IsLetter(c) ==> Letter(Digit(c)) == c && !IsSpace(c) && c != PAD
    ensures !IsLetter(PAD)
  {
  }

  // ----- the encoding -----

  /** The four sextets of three bytes, and back. */
  function Split(a: byte, b: byte, c: byte): (sextet, sextet, sextet, sextet) {
    (a / 4, (a % 4) * 16 + b / 16, (b % 16) * 4 + c / 64, c % 64)
  }

  function Join(w: sextet, x: sextet, y: sextet, z: sextet): (byte, byte, byte) {
    (4 * (w as int) + x / 16, 16 * (x % 16) + y / 4, 64 * (y % 4) + z as int)
  }

  lemma Radix(q: int, r: int)
    ensures 0 <= r < 4 ==> (q * 4 + r) / 4 == q && (q * 4 + r) % 4 == r
    ensures 0 <= r < 16 ==> (q * 16 + r) / 16 == q && (q * 16 + r) % 16 == r
    ensures 0 <= r < 64 ==> (q * 64 + r) / 64 == q && (q * 64 + r) % 64 == r
  {
  }

  lemma SplitJoin(a: byte, b: byte, c: byte)
    ensures var (w, x, y, z) := Split(a, b, c); Join(w, x, y, z) == (a, b, c)
  {
    Radix(a % 4, b / 16);
    Radix(b % 16, c / 64);
  }

  lemma JoinSplit(w: sextet, x: sextet, y: sextet, z: sextet)
    ensures var (a, b, c) := Join(w, x, y, z); Split(a, b, c) == (w, x, y, z)
  {
    Radix(w, x / 16);
    Radix(x % 16, y / 4);
    Radix(y % 4, z);
  }

  function Text(w: sextet, x: sextet, y: sextet, z: sextet): string {
    [Letter(w), Letter(x), Letter(y), Letter(z)]
  }

  function Quad(a: byte, b: byte, c: byte): (q: string)
    ensures |q| == 4
  {
    var (w, x, y, z) := Split(a, b, c);
    Text(w, x, y, z)
  }

  function Encode(b: seq<byte>): string {
    if b == [] then []
    else if |b| == 1 then Quad(b[0], 0, 0)[..2] + [PAD, PAD]
    else if |b| == 2 then Quad(b[0], b[1], 0)[..3] + [PAD]
    else Quad(b[0], b[1], b[2]) + Encode(b[3..])
  }

  // ----- the decoding of a string without white space -----

  predicate Letters(t: string) {
    forall i :: 0 <= i < |t| ==> IsLetter(t[i])
  }

  /** The three bytes of four letters. */
  function Bytes(q: string): (b: seq<byte>)
    requires |q| == 4 && Letters(q)
    ensures |b| == 3
  {
    var (a, b, c) := Join(Digit(q[0]), Digit(q[1]), Digit(q[2]), Digit(q[3]));
    [a, b, c]
  }

  /** Four characters at a time; padding ends the string, and the bits it leaves over are zero. */
  function Decode(t: string): Option<seq<byte>> {
    if t == [] then Some([])
    else if |t| < 4 then None
    else if Letters(t[..4]) then
      var r := Decode(t[4..]);
      if r.None? then None else Some(Bytes(t[..4]) + r.value)
    else if |t| == 4 && Letters(t[..3]) && t[3] == PAD && Digit(t[2]) % 4 == 0 then
      Some(Bytes(t[..3] + [Letter(0)])[..2])
    else if |t| == 4 && Letters(t[..2]) && t[2] == PAD && t[3] == PAD && Digit(t[1]) % 16 == 0 then
      Some(Bytes(t[..2] + [Letter(0), Letter(0)])[..1])
    else None
  }

  lemma BytesOf(w: sextet, x: sextet, y: sextet, z: sextet)
    ensures Letters(Text(w, x, y, z))
    ensures var (a, b, c) := Join(w, x, y, z); Bytes(Text(w, x, y, z)) == [a, b, c]
  {
    LetterDigit(w, 'A');
    LetterDigit(x, 'A');
    LetterDigit(y, 'A');
    LetterDigit(z, 'A');
  }

  lemma QuadBytes(a: byte, b: byte, c: byte)
    ensures Letters(Quad(a, b, c)) && Bytes(Quad(a, b, c)) == [a, b, c]
  {
    hide Text, Bytes, Letters;
    SplitJoin(a, b, c);
    var (w, x, y, z) := Split(a, b, c);
    BytesOf(w, x, y, z);
  }

  lemma BytesQuad(q: string)
    requires |q| == 4 && Letters(q)
    ensures Quad(Bytes(q)[0], Bytes(q)[1], Bytes(q)[2]) == q
  {
    JoinSplit(Digit(q[0]), Digit(q[1]), Digit(q[2]), Digit(q[3]));
    LetterDigit(0, q[0]);
    LetterDigit(0, q[1]);
    LetterDigit(0, q[2]);
    LetterDigit(0, q[3]);
  }

  lemma EncodeDecodeOne(a: byte)
    ensures Decode(Encode([a])) == Some([a])
  {
    hide Letter, Digit, IsLetter, Bytes;
    QuadBytes(a, 0, 0);
    var t, q := Encode([a]), Quad(a, 0, 0);
    var (w, x, y, z) := Split(a, 0, 0);
    Radix(a % 4, 0);
    LetterDigit(x, 'A');
    assert t == [q[0], q[1], PAD, PAD] && q == [q[0], q[1], Letter(0), Letter(0)];
    assert !IsLetter(t[..4][2]) && !IsLetter(t[..3][2]);
    assert IsLetter(q[0]) && IsLetter(q[1]) && Digit(t[1]) % 16 == 0;
    assert t[..2] + [Letter(0), Letter(0)] == q && Bytes(q)[..1] == [a];
    assert !Letters(t[..4]) && !Letters(t[..3]) && Letters(t[..2]);
  }

  lemma EncodeDecodeTwo(a: byte, b: byte)
    ensures Decode(Encode([a, b])) == Some([a, b])
  {
    hide Letter, Digit, IsLetter, Bytes;
    QuadBytes(a, b, 0);
    var t, q := Encode([a, b]), Quad(a, b, 0);
    var (w, x, y, z) := Split(a, b, 0);
    Radix(b % 16, 0);
    LetterDigit(y, 'A');
    assert t == [q[0], q[1], q[2], PAD] && q == [q[0], q[1], q[2], Letter(0)];
    assert !IsLetter(t[..4][3]);
    assert IsLetter(q[0]) && IsLetter(q[1]) && IsLetter(q[2]) && Digit(t[2]) % 4 == 0;
    assert t[..3] + [Letter(0)] == q && Bytes(q)[..2] == [a, b];
    assert !Letters(t[..4]) && Letters(t[..3]);
  }

  /** Decoding undoes encoding. */
  lemma {:induction false} EncodeDecode(b: seq<byte>)
    ensures Decode(Encode(b)) == Some(b)
  {
    hide Bytes, Quad, IsLetter;
    if b == [] {
    } else if |b| == 1 {
      assert b == [b[0]];
      EncodeDecodeOne(b[0]);
    } else if |b| == 2 {
      assert b == [b[0], b[1]];
      EncodeDecodeTwo(b[0], b[1]);
    } else {
      QuadBytes(b[0], b[1], b[2]);
      EncodeDecode(b[3..]);
      assert Encode(b)[..4] == Quad(b[0], b[1], b[2]) && Encode(b)[4..] == Encode(b[3..]);
      assert b == [b[0], b[1], b[2]] + b[3..];
    }
  }

  lemma DecodeEncodeTwo(t: string)
    requires |t| == 4 && !Letters(t) && Letters(t[..3]) && t[3] == PAD && Digit(t[2]) % 4 == 0
    ensures Decode(t).Some? && Encode(Decode(t).value) == t
  {
    hide Letter, Digit, IsLetter, Split;
    LetterDigit(0, 'A');
    var q := t[..3] + [Letter(0)];
    BytesQuad(q);
    var d := Bytes(q);
    assert t[..4] == t && d[2] == 0;
    assert Encode(d[..2]) == q[..3] + [PAD];
    assert Decode(t) == Some(d[..2]);
  }

  lemma DecodeEncodeOne(t: string)
    requires |t| == 4 && Letters(t[..2]) && t[2] == PAD && t[3] == PAD && Digit(t[1]) % 16 == 0
    ensures Decode(t).Some? && Encode(Decode(t).value) == t
  {
    hide Letter, Digit, IsLetter, Split;
    LetterDigit(0, 'A');
    var q := t[..2] + [Letter(0), Letter(0)];
    BytesQuad(q);
    var d := Bytes(q);
    assert t[..4] == t && d[1] == 0 && d[2] == 0;
    assert !IsLetter(t[..3][2]) && !IsLetter(t[2]) && !Letters(t) && !Letters(t[..3]);
    assert Encode(d[..1]) == q[..2] + [PAD, PAD];
    assert Decode(t) == Some(d[..1]);
  }

  /** Encoding undoes decoding, so every byte string has one encoding only. */
  lemma {:induction false} DecodeEncode(t: string)
    ensures Decode(t).Some? ==> Encode(Decode(t).value) == t
  {
    hide Letter, IsLetter, Split, Join;
    if |t| < 4 {
    } else if Letters(t[..4]) {
      DecodeEncode(t[4..]);
      BytesQuad(t[..4]);
      if Decode(t).Some? {
        assert Decode(t).value[3..] == Decode(t[4..]).value;
        assert t == t[..4] + t[4..];
      }
    } else if |t| == 4 && Letters(t[..3]) && t[3] == PAD && Digit(t[2]) % 4 == 0 {
      DecodeEncodeTwo(t);
    } else if |t| == 4 && Letters(t[..2]) && t[2] == PAD && t[3] == PAD && Digit(t[1]) % 16 == 0 {
      DecodeEncodeOne(t);
    }
  }

  /** A string decodes to `b` if and only if it is the encoding of `b`. */
  lemma DecodeIsCanonical(t: string, b: seq<byte>)
    ensures Decode(t) == Some(b) <==> t == Encode(b)
  {
    EncodeDecode(b);
    DecodeEncode(t);
  }

  // ----- decoding letter by letter, as the loop does -----

  /** After `k` letters of a group the low bits of the last byte are still to come. */
  predicate Room(a: seq<byte>, k: nat) {
    && (k > 0 ==> a != [])
    && (k == 1 ==> a[|a| - 1] % 4 == 0)
    && (k == 2 ==> a[|a| - 1] % 16 == 0)
    && (k == 3 ==> a[|a| - 1] % 64 == 0)
  }

  /** Adds letter number `k` of a group. */
  function Push(a: seq<byte>, k: nat, d: sextet): (r: seq<byte>)
    requires k < 4 && Room(a, k)
    ensures |r| == |a| + (if k < 3 then 1 else 0) && Room(r, (k + 1) % 4)
  {
    var d: int := d;
    if k == 0 then a + [4 * d]
    else
      var n := |a| - 1;
      var last: int := a[n];
      if k == 1 then a[..n] + [last + d / 16, 16 * (d % 16)]
      else if k == 2 then a[..n] + [last + d / 4, 64 * (d % 4)]
      else a[..n] + [last + d]
  }

  /** The bytes of the letters read so far; the last one is incomplete unless their number is a multiple of four. */
  function Acc(t: string): (r: seq<byte>)
    requires Letters(t)
    ensures |r| == 3 * (|t| / 4) + |t| % 4 && Room(r, |t| % 4)
  {
    hide Digit, Push, Room, IsLetter;
    if t == [] then assert Room([], 0) by { RoomNone(); } []
    else
      var n := |t| - 1;
      Quarter(n);
      Push(Acc(t[..n]), n % 4, Digit(t[n]))
  }

  lemma RoomNone()
    ensures Room([], 0)
  {
  }

  lemma Quarter(n: nat)
    ensures (n + 1) % 4 == (n % 4 + 1) % 4
    ensures 3 * ((n + 1) / 4) + (n + 1) % 4 == 3 * (n / 4) + n % 4 + (if n % 4 < 3 then 1 else 0)
  {
  }

  lemma AccTwo(q: string)
    requires |q| == 2 && Letters(q)
    ensures var (w: int, x: int) := (Digit(q[0]), Digit(q[1])); Acc(q) == [4 * w + x / 16, 16 * (x % 16)]
  {
    hide Digit, IsLetter;
    assert q[..1][..0] == [];
    assert Acc(q[..1]) == [4 * (Digit(q[0]) as int)];
  }

  lemma AccFew(q: string)
    requires |q| == 4 && Letters(q)
    ensures Acc(q) == Bytes(q) && Bytes(q)[..1] == Acc(q[..2])[..1] && Bytes(q)[..2] == Acc(q[..3])[..2]
    ensures Acc(q[..2])[1] == 16 * (Digit(q[1]) as int % 16) && Acc(q[..3])[2] == 64 * (Digit(q[2]) as int % 4)
  {
    hide Digit, IsLetter, Acc;
    var w: int, x: int, y: int := Digit(q[0]), Digit(q[1]), Digit(q[2]);
    AccTwo(q[..2]);
    assert q[..3][..2] == q[..2];
    AccLast(q[..3]);
    assert Acc(q[..3]) == [4 * w + x / 16, 16 * (x % 16) + y / 4, 64 * (y % 4)];
    AccLast(q);
  }

  lemma AccLast(t: string)
    requires t != [] && Letters(t)
    ensures Acc(t) == Push(Acc(t[..|t| - 1]), (|t| - 1) % 4, Digit(t[|t| - 1]))
  {
    hide Push, Digit, IsLetter, Room;
  }

  /** Letters pushed after a complete group leave the group alone. */
  lemma PushAfter(p: seq<byte>, a: seq<byte>, k: nat, d: sextet)
    requires k < 4 && Room(a, k)
    ensures Room(p + a, k) && Push(p + a, k, d) == p + Push(a, k, d)
  {
    if k > 0 {
      var n := |a| - 1;
      assert (p + a)[|p| + n] == a[n] && (p + a)[..|p| + n] == p + a[..n];
    }
  }

  lemma {:induction false} AccQuad(q: string, t: string)
    requires |q| == 4 && Letters(q) && Letters(t)
    ensures Letters(q + t) && Acc(q + t) == Bytes(q) + Acc(t)
  {
    hide Digit, IsLetter, Bytes, Push, Room;
    if t == [] {
      AccFew(q);
      assert q + t == q;
      assert Acc([]) == [];
    } else {
      var n := |t| - 1;
      AccQuad(q, t[..n]);
      PushAfter(Bytes(q), Acc(t[..n]), n % 4, Digit(t[n]));
      assert (q + t)[..n + 4] == q + t[..n] && (n + 4) % 4 == n % 4;
    }
  }

  /** The verdict on a string that consists of letters `t`, followed by something that does not start with a letter. */
  function Verdict(t: string, u: string): Option<seq<byte>>
    requires Letters(t)
  {
    var a := Acc(t);
    if u == [] then (if |t| % 4 == 0 then Some(a) else None)
    else if ((|t| % 4 == 2 && u == [PAD, PAD]) || (|t| % 4 == 3 && u == [PAD])) && a[|a| - 1] == 0
    then Some(a[..|a| - 1])
    else None
  }

  lemma {:induction false} DecodeStops(t: string, u: string)
    requires Letters(t) && (u == [] || !IsLetter(u[0]))
    ensures Decode(t + u) == Verdict(t, u)
  {
    if |t| >= 4 {
      DecodeStops(t[4..], u);
      AccQuad(t[..4], t[4..]);
      StopsLater(t, u);
    } else {
      StopsNow(t, u);
    }
  }

  lemma StopsLater(t: string, u: string)
    requires Letters(t) && |t| >= 4 && Decode(t[4..] + u) == Verdict(t[4..], u)
    requires Acc(t[..4] + t[4..]) == Bytes(t[..4]) + Acc(t[4..])
    ensures Decode(t + u) == Verdict(t, u)
  {
    hide Digit, IsLetter, Bytes, Acc;
    assert t[..4] + t[4..] == t;
    assert (t + u)[..4] == t[..4] && (t + u)[4..] == t[4..] + u;
    var a, b := Acc(t), Acc(t[4..]);
    assert b != [] ==> a[..|a| - 1] == Bytes(t[..4]) + b[..|b| - 1];
  }

  lemma StopsNow(t: string, u: string)
    requires Letters(t) && |t| < 4 && (u == [] || !IsLetter(u[0]))
    ensures Decode(t + u) == Verdict(t, u)
  {
    var s := t + u;
    if u == [] {
      assert s == t;
    } else if |s| >= 4 {
      assert s[..4][|t|] == u[0] && !Letters(s[..4]);
      if |s| == 4 && |t| == 3 && u == [PAD] { PadOne(t); }
      if |s| == 4 && |t| == 2 && u == [PAD, PAD] { PadTwo(t); }
      assert |t| < 3 ==> s[..3][|t|] == u[0] && !Letters(s[..3]);
      assert |t| < 2 ==> s[..2][|t|] == u[0] && !Letters(s[..2]);
    }
  }

  lemma PadOne(t: string)
    requires |t| == 3 && Letters(t)
    ensures Decode(t + [PAD]) == Verdict(t, [PAD])
  {
    hide Digit, IsLetter, Letter, Acc, Bytes;
    LetterDigit(0, 'A');
    var s, q := t + [PAD], t + [Letter(0)];
    AccFew(q);
    assert q[..3] == t && s[..3] == t && s[..4] == s && !IsLetter(s[3]);
  }

  lemma PadTwo(t: string)
    requires |t| == 2 && Letters(t)
    ensures Decode(t + [PAD, PAD]) == Verdict(t, [PAD, PAD])
  {
    hide Digit, IsLetter, Letter, Acc, Bytes;
    LetterDigit(0, 'A');
    var s, q := t + [PAD, PAD], t + [Letter(0), Letter(0)];
    AccFew(q);
    assert q[..2] == t && s[..2] == t && s[..4] == s && !IsLetter(s[2]) && !IsLetter(s[..3][2]);
    assert !Letters(s[..3]);
  }

  // ----- the encoding as a number -----

  /** The alphabet of section 4 of RFC 4648, in order. */
  const ALPHABET := "ABCDEFGHIJKLMNOPQRSTUVWXYZ" + "abcdefghijklmnopqrstuvwxyz" + "0123456789" + "+/"

  lemma UpperCase(i: nat)
    requires i < 26
    ensures "ABCDEFGHIJKLMNOPQRSTUVWXYZ"[i] == 'A' + i as char
  {
  }

  lemma LowerCase(i: nat)
    requires i < 26
    ensures "abcdefghijklmnopqrstuvwxyz"[i] == 'a' + i as char
  {
  }

  lemma Numerals(i: nat)
    requires i < 10
    ensures "0123456789"[i] == '0' + i as char
  {
  }

  /** Letter `i` is character `i` of the alphabet. */
  lemma LetterIsInAlphabet(i: sextet)
    ensures |ALPHABET| == 64 && Letter(i) == ALPHABET[i]
  {
    if i < 26 {
      UpperCase(i);
    } else if i < 52 {
      LowerCase(i - 26);
    } else if i < 62 {
      Numerals(i - 52);
    }
  }

  /** Where a character stands in the alphabet. */
  ghost function Position(c: char): sextet {
    if exists i: sextet :: At(c, i) then var i: sextet :| At(c, i); i else 0
  }

  ghost predicate At(c: char, i: sextet) { |ALPHABET| == 64 && c == ALPHABET[i] }

  lemma PositionOfLetter(i: sextet)
    ensures At(Letter(i), i) && Position(Letter(i)) == i
  {
    hide Letter, Digit, IsLetter;
    LetterIsInAlphabet(i);
    assert At(Letter(i), i);
    var j := Position(Letter(i));
    LetterIsInAlphabet(j);
    LetterDigit(i, 'A');
    LetterDigit(j, 'A');
  }

  /** Letters as digits of a number in base 64, the most significant first, behind `high`. */
  ghost function InBase64(t: string, high: nat): nat {
    if t == [] then high else InBase64(t[1..], 64 * high + Position(t[0]))
  }

  /** Bytes as digits of a number in base 256, the most significant first, behind `high`. */
  function InBase256(b: seq<byte>, high: nat): nat {
    if b == [] then high else InBase256(b[1..], 256 * high + b[0])
  }

  lemma {:induction false} InBase64OfSum(t: string, u: string, high: nat)
    ensures InBase64(t + u, high) == InBase64(u, InBase64(t, high))
  {
    if t == [] {
      assert t + u == u;
    } else {
      InBase64OfSum(t[1..], u, 64 * high + Position(t[0]));
      assert (t + u)[1..] == t[1..] + u;
    }
  }

  lemma QuadInBase64(a: byte, b: byte, c: byte, high: nat)
    ensures var q, n := Quad(a, b, c), 16777216 * high + 65536 * (a as int) + 256 * (b as int) + c;
            && InBase64(q, high) == n && InBase64(q[..3], high) == n / 64 && InBase64(q[..2], high) == n / 4096
  {
    hide Letter, Position;
    var (w, x, y, z) := Split(a, b, c);
    var q := Quad(a, b, c);
    PositionOfLetter(w);
    PositionOfLetter(x);
    PositionOfLetter(y);
    PositionOfLetter(z);
    assert q == [Letter(w), Letter(x), Letter(y), Letter(z)];
    FourDigits(q, high);
    assert 262144 * (w as int) + 4096 * (x as int) + 64 * (y as int) + z == 65536 * (a as int) + 256 * (b as int) + c;
  }

  lemma FourDigits(q: string, high: nat)
    requires |q| == 4
    ensures var w, x, y, z := Position(q[0]), Position(q[1]), Position(q[2]), Position(q[3]);
            && InBase64(q[..2], high) == 4096 * high + 64 * (w as int) + x
            && InBase64(q[..3], high) == 64 * (4096 * high + 64 * (w as int) + x) + y
            && InBase64(q, high) == 64 * (64 * (4096 * high + 64 * (w as int) + x) + y) + z
  {
    hide Position;
    var w, x, y, z := Position(q[0]), Position(q[1]), Position(q[2]), Position(q[3]);
    assert q[..2][1..] == [q[1]] && [q[1]][1..] == [];
    InBase64OfSum(q[..2], [q[2]], high);
    InBase64OfSum(q[..3], [q[3]], high);
    assert q[..2] + [q[2]] == q[..3] && q[..3] + [q[3]] == q;
    assert InBase64([q[1]], 64 * high + w) == 64 * (64 * high + w) + x;
    OneDigit(q[2], InBase64(q[..2], high));
    OneDigit(q[3], InBase64(q[..3], high));
  }

  lemma OneDigit(c: char, high: nat)
    ensures InBase64([c], high) == 64 * high + Position(c)
  {
    assert [c][1..] == [];
  }

  /** The letters of an encoding, without the padding. */
  function Unpadded(b: seq<byte>): string {
    Encode(b)[..|Encode(b)| - Padding(b)]
  }

  function Padding(b: seq<byte>): (n: nat)
    ensures n <= |Encode(b)|
  {
    EncodeLength(b);
    if |b| % 3 == 0 then 0 else 3 - |b| % 3
  }

  lemma {:induction false} EncodeLength(b: seq<byte>)
    ensures |Encode(b)| == 4 * ((|b| + 2) / 3)
  {
    hide Quad;
    if |b| >= 3 {
      EncodeLength(b[3..]);
      assert |b| + 2 == (|b| - 3 + 2) + 3;
    }
  }

  /**
   The encoding of section 4 of RFC 4648: four letters for three bytes, `=` for what is missing, and
   the letters are the bits of the bytes in order, six by six, with zeros at the end.
   */
  lemma {:induction false} EncodeIsRadix64(b: seq<byte>, high: nat)
    ensures Encode(b) == Unpadded(b) + seq(Padding(b), _ => '=')
    ensures InBase64(Unpadded(b), high)
         == InBase256(b, high) * (if |b| % 3 == 1 then 16 else if |b| % 3 == 2 then 4 else 1)
  {
    hide Position, Quad, InBase64;
    if b == [] {
      assert Unpadded(b) == [];
      NoDigits(high);
    } else if |b| < 3 {
      LastGroup(b, high);
    } else {
      var q, rest := Quad(b[0], b[1], b[2]), b[3..];
      var high' := 16777216 * high + 65536 * (b[0] as int) + 256 * (b[1] as int) + b[2];
      EncodeLength(b);
      EncodeLength(rest);
      EncodeIsRadix64(rest, high');
      QuadInBase64(b[0], b[1], b[2], high);
      assert Unpadded(b) == q + Unpadded(rest);
      InBase64OfSum(q, Unpadded(rest), high);
      ThreeBytes(b, high);
    }
  }

  lemma NoDigits(high: nat)
    ensures InBase64([], high) == high
  {
  }

  lemma ThreeBytes(b: seq<byte>, high: nat)
    requires |b| >= 3
    ensures InBase256(b, high)
         == InBase256(b[3..], 16777216 * high + 65536 * (b[0] as int) + 256 * (b[1] as int) + b[2])
  {
    assert b[1..][1..] == b[2..] && b[2..][1..] == b[3..];
    assert InBase256(b, high) == InBase256(b[1..], 256 * high + b[0]);
    assert InBase256(b[1..], 256 * high + b[0]) == InBase256(b[2..], 256 * (256 * high + b[0]) + b[1]);
  }

  lemma OneByte(high: nat, a: byte)
    ensures (16777216 * high + 65536 * (a as int)) / 4096 == 16 * (256 * high + a)
  {
  }

  lemma TwoBytes(high: nat, a: byte, b: byte)
    ensures (16777216 * high + 65536 * (a as int) + 256 * (b as int)) / 64 == 4 * (256 * (256 * high + a) + b)
  {
  }

  lemma LastGroup(b: seq<byte>, high: nat)
    requires 1 <= |b| <= 2
    ensures Encode(b) == Unpadded(b) + seq(Padding(b), _ => '=')
    ensures InBase64(Unpadded(b), high) == InBase256(b, high) * (if |b| == 1 then 16 else 4)
  {
    hide Position, Quad, InBase64;
    EncodeLength(b);
    if |b| == 1 {
      QuadInBase64(b[0], 0, 0, high);
      OneByte(high, b[0]);
      assert Unpadded(b) == Quad(b[0], 0, 0)[..2] && b[1..] == [];
      assert seq(2, _ => '=') == [PAD, PAD];
    } else {
      QuadInBase64(b[0], b[1], 0, high);
      TwoBytes(high, b[0], b[1]);
      assert Unpadded(b) == Quad(b[0], b[1], 0)[..3] && b[1..][1..] == [];
      assert b[1..] == [b[1]] && [b[1]][1..] == [];
      assert InBase256(b, high) == InBase256([b[1]], 256 * high + b[0]);
      assert InBase256([b[1]], 256 * high + b[0]) == 256 * (256 * high + b[0]) + b[1];
      assert seq(1, _ => '=') == [PAD];
    }
  }

  lemma SomeLetters()
    ensures Letter(0) == 'A' && Letter(25) == 'Z' && Letter(32) == 'g' && Letter(38) == 'm'
    ensures Letter(47) == 'v' && Letter(60) == '8' && Letter(61) == '9' && Letter(62) == '+' && Letter(63) == '/'
  {
  }

  lemma OneByteSplit()
    ensures Split(102, 0, 0) == (25, 32, 0, 0)
  {
  }

  lemma OneByteVector()
    ensures Encode([102]) == "Zg=="
  {
    SomeLetters();
    OneByteSplit();
    hide Letter, Split;
    assert Quad(102, 0, 0) == Text(25, 32, 0, 0);
  }

  lemma TwoByteVector()
    ensures Encode([102, 111]) == "Zm8="
  {
    SomeLetters();
    hide Letter;
    assert Split(102, 111, 0) == (25, 38, 60, 0);
  }

  lemma ThreeByteVector()
    ensures Encode([102, 111, 111]) == "Zm9v"
  {
    SomeLetters();
    hide Letter;
    assert Split(102, 111, 111) == (25, 38, 61, 47);
    assert [102 as byte, 111, 111][3..] == [] && Encode([]) == [];
  }

  /** The vectors of section 10 of RFC 4648 for "f", "fo" and "foo". */
  lemma Vectors()
    ensures Encode([102]) == "Zg==" && Encode([102, 111]) == "Zm8=" && Encode([102, 111, 111]) == "Zm9v"
  {
    hide Encode;
    OneByteVector();
    TwoByteVector();
    ThreeByteVector();
  }
}
