/** The functions of common/b64_ntop.c and common/b64_pton.c, on buffers. */
module Base64Codec {
  import opened Prelude
  import opened Base64

  /** Stores four characters, if there is room for them. */
  method Put(target: array<char>, n: nat, q: string) returns (ok: bool)
    requires |q| == 4 && n <= target.Length
    modifies target
    ensures ok <==> n + 4 <= target.Length
    ensures ok ==> target[..n + 4] == old(target[..n]) + q
  {
    if n + 4 > target.Length { return false; }
    target[n], target[n + 1], target[n + 2], target[n + 3] := q[0], q[1], q[2], q[3];
    ok := true;
  }

  /** `b64_ntop`: fails if and only if the encoding and its terminator do not fit. */
  method NTop(src: seq<byte>, target: array<char>) returns (r: int)
    modifies target
    ensures r == -1 <==> |Encode(src)| >= target.Length
    ensures r != -1 ==> r == |Encode(src)| && target[..r] == Encode(src) && target[r] == '\0'
  {
    hide Quad;
    var i, n := 0, 0;
    assert src[0..] == src;
    while |src| - i > 2
      invariant 0 <= i <= |src| && n <= target.Length
      invariant target[..n] + Encode(src[i..]) == Encode(src)
      decreases |src| - i
    {
      var q := Quad(src[i], src[i + 1], src[i + 2]);
      assert src[i..][3..] == src[i + 3..] && Encode(src[i..]) == q + Encode(src[i + 3..]);
      var ok := Put(target, n, q);
      if !ok { return -1; }
      i, n := i + 3, n + 4;
    }
    ghost var last := Encode(src[i..]);
    if i != |src| {
      var q := Quad(src[i], if i + 1 < |src| then src[i + 1] else 0, 0);
      q := if |src| - i == 1 then [q[0], q[1], PAD, PAD] else [q[0], q[1], q[2], PAD];
      assert q == last;
      var ok := Put(target, n, q);
      if !ok { return -1; }
      n := n + 4;
    }
    assert target[..n] == Encode(src);
    if n >= target.Length { return -1; }
    target[n] := '\0';
    r := n;
  }

  // ----- the reverse map -----

  const RMAP_SPECIAL := 0xf0
  const RMAP_END := 0xfd
  const RMAP_SPACE := 0xfe
  const RMAP_INVALID := 0xff

  /** What a character means to the decoder. */
  function Meaning(c: char): int {
    if c == '\0' || c == PAD then RMAP_END
    else if IsSpace(c) then RMAP_SPACE
    else if IsLetter(c) then Digit(c)
    else RMAP_INVALID
  }

  ghost predicate Initialized(rmap: array<int>)
    reads rmap
  {
    rmap.Length == 256 && forall i :: 0 <= i < 256 ==> rmap[i] == Meaning(i as char)
  }

  /** `b64_initialize_rmap`: classifies the characters, then enters the letters with their values. */
  method InitializeRmap(rmap: array<int>)
    requires rmap.Length == 256
    modifies rmap
    ensures Initialized(rmap)
  {
    rmap[0] := RMAP_END;
    for i := 1 to 256
      invariant forall j :: 0 <= j < i ==> rmap[j] == if IsLetter(j as char) then RMAP_INVALID else Meaning(j as char)
    {
      var ch := i as char;
      rmap[i] := if IsSpace(ch) then RMAP_SPACE else if ch == PAD then RMAP_END else RMAP_INVALID;
    }
    for i := 0 to 64
      invariant forall j :: 0 <= j < 256 ==>
        rmap[j] == if IsLetter(j as char) && Digit(j as char) >= i then RMAP_INVALID else Meaning(j as char)
    {
      LetterDigit(i, 'A');
      rmap[Letter(i) as int] := i;
      forall c: char | IsLetter(c) && Digit(c) == i ensures c == Letter(i) { LetterDigit(i, c); }
    }
  }

  // ----- decoding -----

  /** The characters that are not white space. */
  function Strip(s: string): string {
    if s == [] then [] else Strip(s[..|s| - 1]) + (if IsSpace(s[|s| - 1]) then [] else [s[|s| - 1]])
  }

  lemma {:induction false} StripSplit(s: string, i: nat)
    requires i <= |s|
    ensures Strip(s) == Strip(s[..i]) + Strip(s[i..])
  {
    if i == |s| {
      assert s[..i] == s && s[i..] == [];
    } else {
      var n := |s| - 1;
      StripSplit(s[..n], i);
      assert s[..n][..i] == s[..i] && s[i..][..n - i] == s[..n][i..];
    }
  }

  lemma StripStep(s: string, i: nat)
    requires i < |s|
    ensures Strip(s[..i + 1]) == Strip(s[..i]) + (if IsSpace(s[i]) then [] else [s[i]])
    ensures Strip(s[i..]) == (if IsSpace(s[i]) then [] else [s[i]]) + Strip(s[i + 1..])
  {
    assert s[..i + 1][..i] == s[..i];
    StripSplit(s[i..], 1);
    assert s[i..][..1] == [s[i]] && s[i..][1..] == s[i + 1..] && [s[i]][..0] == [];
    assert Strip([s[i]]) == Strip([s[i]][..0]) + (if IsSpace(s[i]) then [] else [s[i]]);
  }

  /** A C string of 7-bit characters. */
  predicate SevenBit(s: string) {
    forall i :: 0 <= i < |s| ==> 0 < s[i] as int < 128
  }

  /** `util_b64_pton_calculate_size`. */
  function CalculateSize(srcSize: nat): nat { (srcSize + 3) / 4 * 3 + 1 }

  /** How many bytes `n` letters make, the incomplete one included. */
  function Length(n: nat): nat { 3 * (n / 4) + n % 4 }

  lemma LengthGrows(m: nat, n: nat)
    requires m <= n
    ensures Length(m) <= Length(n)
  {
  }

  lemma AccLength(t: string)
    requires Letters(t)
    ensures |Acc(t)| == Length(|t|)
  {
  }

  /** The number of letters at the front. */
  function Lead(s: string): (k: nat)
    ensures k <= |s| && Letters(s[..k]) && (k < |s| ==> !IsLetter(s[k]))
  {
    if s == [] || !IsLetter(s[0]) then 0
    else
      assert s[..Lead(s[1..]) + 1] == [s[0]] + s[1..][..Lead(s[1..])];
      Lead(s[1..]) + 1
  }

  /** Letters at the front are counted, and no more if none follows. */
  lemma LeadCounts(t: string, u: string)
    requires Letters(t)
    ensures Lead(t + u) >= |t|
    ensures u == [] || !IsLetter(u[0]) ==> Lead(t + u) == |t|
  {
    hide IsLetter;
    var s := t + u;
    assert forall i :: 0 <= i < |t| ==> s[i] == t[i];
    assert u != [] ==> s[|t|] == u[0];
    assert forall i :: 0 <= i < Lead(s) ==> s[i] == s[..Lead(s)][i];
  }

  /** The state of the decoding loop after the first `i` characters. */
  ghost predicate Reading(src: string, i: nat, target: array<byte>, tarindex: nat, state: nat)
    reads target
  {
    && i <= |src| && Letters(Strip(src[..i])) && state == |Strip(src[..i])| % 4
    && var a := Acc(Strip(src[..i]));
       tarindex + (if state == 0 then 0 else 1) == |a| <= target.Length && target[..|a|] == a
  }

  /** One turn of the `switch` in `b64_pton_do`: stores the bits of a letter, if there is room. */
  method Store(target: array<byte>, tarindex: nat, state: nat, ofs: sextet, ghost a: seq<byte>)
      returns (ok: bool, tarindex': nat)
    requires state < 4 && Room(a, state) && |a| <= target.Length && target[..|a|] == a
    requires tarindex + (if state == 0 then 0 else 1) == |a|
    modifies target
    ensures ok <==> |Push(a, state, ofs)| <= target.Length
    ensures ok ==> tarindex' + (if state == 3 then 0 else 1) == |Push(a, state, ofs)|
    ensures ok ==> target[..|Push(a, state, ofs)|] == Push(a, state, ofs)
  {
    ok, tarindex' := false, tarindex;
    var d: int := ofs;
    if state == 0 {
      if tarindex >= target.Length { return; }
      target[tarindex] := 4 * d;
    } else if state == 3 {
      if tarindex >= target.Length { return; }
      target[tarindex] := target[tarindex] + d;
      tarindex' := tarindex + 1;
    } else {
      if tarindex + 1 >= target.Length { return; }
      target[tarindex] := target[tarindex] + (if state == 1 then d / 16 else d / 4);
      target[tarindex + 1] := if state == 1 then 16 * (d % 16) else 64 * (d % 4);
      tarindex' := tarindex + 1;
    }
    ok := true;
  }

  /**
   How the loop over the letters ends: at the end of the string or a padding character, at something
   else, or out of room.
   */
  datatype Stop = AtEnd | AtInvalid | NoRoom

  method DecodeLetters(src: string, target: array<byte>, rmap: array<int>)
      returns (stop: Stop, i: nat, tarindex: nat, state: nat)
    requires SevenBit(src) && Initialized(rmap)
    modifies target
    ensures i <= |src| && Letters(Strip(src[..i]))
    ensures stop == AtEnd ==> Reading(src, i, target, tarindex, state) && (i < |src| ==> src[i] == PAD)
    ensures stop == AtInvalid ==> i < |src| && !IsLetter(src[i]) && !IsSpace(src[i]) && src[i] != PAD
    ensures stop == NoRoom ==> target.Length < CalculateSize(|src|)
    ensures stop == NoRoom ==>
              i < |src| && Letters(Strip(src[..i + 1])) && target.Length < Length(|Strip(src[..i + 1])|)
  {
    hide Letters, Push, Digit, Acc, Room, CalculateSize;
    i, tarindex, state := 0, 0, 0;
    NothingRead(src, target);
    while i < |src|
      invariant Reading(src, i, target, tarindex, state) && Initialized(rmap)
      decreases |src| - i
    {
      var ofs := rmap[src[i] as int];
      assert ofs == Meaning(src[i]) by { assert (src[i] as int) as char == src[i]; }
      ghost var t := Strip(src[..i]);
      StripStep(src, i);
      if ofs >= RMAP_SPECIAL {
        if ofs == RMAP_SPACE {
          assert Strip(src[..i + 1]) == t;
          i := i + 1;
          continue;
        }
        if ofs == RMAP_END { return AtEnd, i, tarindex, state; }
        return AtInvalid, i, tarindex, state;
      }
      LettersMore(t, src[i]);
      ghost var a := Acc(t);
      var ok;
      ok, tarindex := Store(target, tarindex, state, ofs, a);
      if !ok {
        RoomEnough(src, i);
        return NoRoom, i, tarindex, state;
      }
      assert Strip(src[..i + 1]) == t + [src[i]] && Acc(t + [src[i]]) == Push(a, state, ofs);
      state, i := (state + 1) % 4, i + 1;
    }
    stop := AtEnd;
  }

  lemma NothingRead(src: string, target: array<byte>)
    ensures Reading(src, 0, target, 0, 0)
  {
    assert src[..0] == [] && Acc([]) == [] && target[..0] == [];
  }

  lemma LettersMore(t: string, c: char)
    requires Letters(t) && IsLetter(c)
    ensures Letters(t + [c]) && Acc(t + [c]) == Push(Acc(t), |t| % 4, Digit(c)) && |t + [c]| % 4 == (|t| % 4 + 1) % 4
  {
    hide Push, Digit, IsLetter, Acc;
    assert (t + [c])[..|t|] == t;
    AccLast(t + [c]);
    Quarter(|t|);
  }

  lemma {:induction false} StripShortens(s: string)
    ensures |Strip(s)| <= |s|
  {
    if s != [] { StripShortens(s[..|s| - 1]); }
  }

  lemma RoomEnough(src: string, i: nat)
    requires i < |src| && Letters(Strip(src[..i + 1]))
    ensures |Acc(Strip(src[..i + 1]))| < CalculateSize(|src|)
  {
    StripShortens(src[..i + 1]);
  }

  /** The first character from `i` on that is not white space. */
  method SkipSpaces(src: string, i: nat, rmap: array<int>) returns (k: nat)
    requires i <= |src| && SevenBit(src) && Initialized(rmap)
    ensures i <= k <= |src| && Strip(src[i..]) == Strip(src[k..])
    ensures k < |src| ==> !IsSpace(src[k]) && Strip(src[k..]) == [src[k]] + Strip(src[k + 1..])
    ensures k == |src| ==> Strip(src[k..]) == []
  {
    k := i;
    while k < |src|
      invariant i <= k <= |src| && Strip(src[i..]) == Strip(src[k..])
    {
      StripStep(src, k);
      assert (src[k] as int) as char == src[k];
      if rmap[src[k] as int] != RMAP_SPACE { return; }
      k := k + 1;
    }
  }

  /** Is the rest of the string, after the letters, the padding that belongs to the state? */
  method CheckTail(src: string, i: nat, state: nat, rmap: array<int>) returns (ok: bool)
    requires i <= |src| && SevenBit(src) && Initialized(rmap) && state < 4 && (i < |src| ==> src[i] == PAD)
    ensures ok <==> || (state == 0 && Strip(src[i..]) == [])
                    || (state == 2 && Strip(src[i..]) == [PAD, PAD])
                    || (state == 3 && Strip(src[i..]) == [PAD])
  {
    if i == |src| {
      assert src[i..] == [];
      return state == 0;
    }
    StripStep(src, i);
    if state < 2 { return false; }
    var k := i + 1;
    if state == 2 {
      k := SkipSpaces(src, k, rmap);
      assert Strip(src[i..]) == [PAD] + Strip(src[k..]) && Strip(src[i..])[1..] == Strip(src[k..]);
      assert Strip(src[i..]) == [PAD, PAD] ==> Strip(src[k..]) == [PAD];
      assert k < |src| ==> Strip(src[k..])[0] == src[k];
      if k == |src| || src[k] != PAD { return false; }
      k := k + 1;
    }
    var e := SkipSpaces(src, k, rmap);
    return e == |src|;
  }

  /**
   `b64_pton_do`: when it accepts a string it has stored the decoded bytes. It accepts exactly the
   strings that can be decoded and whose letters fit, an incomplete byte included; in a buffer of the
   size that `util_b64_pton_calculate_size` gives, they do.
   */
  method PtonDo(src: string, target: array<byte>, rmap: array<int>) returns (r: int)
    requires SevenBit(src) && Initialized(rmap)
    modifies target
    ensures -1 <= r <= target.Length
    ensures r >= 0 ==> Decode(Strip(src)) == Some(target[..r])
    ensures r >= 0 <==> Decode(Strip(src)).Some? && Length(Lead(Strip(src))) <= target.Length
    ensures r == -1 && target.Length >= CalculateSize(|src|) ==> Decode(Strip(src)).None?
  {
    hide Acc, Decode, IsLetter, Lead, Length, CalculateSize;
    var stop, i, tarindex, state := DecodeLetters(src, target, rmap);
    ghost var t, u := Strip(src[..i]), Strip(src[i..]);
    StripSplit(src, i);
    if stop == NoRoom {
      ghost var t' := Strip(src[..i + 1]);
      StripSplit(src, i + 1);
      LeadCounts(t', Strip(src[i + 1..]));
      LengthGrows(|t'|, Lead(Strip(src)));
      return -1;
    }
    if i < |src| { StripStep(src, i); } else { assert src[i..] == []; }
    LetterDigit(0, 'A');
    DecodeStops(t, u);
    LeadCounts(t, u);
    AccLength(t);
    if stop == AtInvalid { return -1; }
    var ok := CheckTail(src, i, state, rmap);
    if !ok { return -1; }
    ghost var a := Acc(t);
    if state != 0 {
      assert target[tarindex] == a[tarindex];
      if target[tarindex] != 0 { return -1; }
    }
    assert target[..tarindex] == a[..tarindex];
    r := tarindex;
  }

  method CountLetters(src: string, rmap: array<int>) returns (stop: Stop, i: nat, tarindex: nat, state: nat)
    requires SevenBit(src) && Initialized(rmap)
    ensures i <= |src| && Letters(Strip(src[..i])) && stop != NoRoom
    ensures state == |Strip(src[..i])| % 4 && tarindex + (if state == 0 then 0 else 1) == Length(|Strip(src[..i])|)
    ensures stop == AtEnd ==> i < |src| ==> src[i] == PAD
    ensures stop == AtInvalid ==> i < |src| && !IsLetter(src[i]) && !IsSpace(src[i]) && src[i] != PAD
  {
    hide Digit;
    i, tarindex, state := 0, 0, 0;
    assert src[..0] == [];
    while i < |src|
      invariant i <= |src| && Letters(Strip(src[..i])) && state == |Strip(src[..i])| % 4
      invariant tarindex + (if state == 0 then 0 else 1) == Length(|Strip(src[..i])|)
      decreases |src| - i
    {
      var ofs := rmap[src[i] as int];
      assert ofs == Meaning(src[i]) by { assert (src[i] as int) as char == src[i]; }
      ghost var t := Strip(src[..i]);
      StripStep(src, i);
      if ofs >= RMAP_SPECIAL {
        if ofs == RMAP_SPACE {
          assert Strip(src[..i + 1]) == t;
          i := i + 1;
          continue;
        }
        if ofs == RMAP_END { return AtEnd, i, tarindex, state; }
        return AtInvalid, i, tarindex, state;
      }
      Quarter(|t|);
      assert Strip(src[..i + 1]) == t + [src[i]];
      if state != 0 { tarindex := tarindex + 1; }
      state, i := (state + 1) % 4, i + 1;
    }
    stop := AtEnd;
  }

  /** Left-over bits that are not zero: what the decoder rejects and the length function does not look at. */
  ghost predicate StrayBits(s: string) {
    exists t :: Stray(s, t)
  }

  ghost predicate Stray(s: string, t: string) {
    && Letters(t) && ((|t| % 4 == 2 && s == t + [PAD, PAD]) || (|t| % 4 == 3 && s == t + [PAD]))
    && Acc(t)[|Acc(t)| - 1] != 0
  }

  /** `b64_pton_len`: the length of what the decoder stores; it differs from the decoder on stray bits only. */
  method PtonLen(src: string, rmap: array<int>) returns (r: int)
    requires SevenBit(src) && Initialized(rmap)
    ensures -1 <= r
    ensures Decode(Strip(src)).Some? ==> r == |Decode(Strip(src)).value|
    ensures Decode(Strip(src)).None? ==> (r >= 0 <==> StrayBits(Strip(src)))
  {
    hide Acc, Decode, IsLetter;
    var stop, i, tarindex, state := CountLetters(src, rmap);
    ghost var t, u := Strip(src[..i]), Strip(src[i..]);
    StripSplit(src, i);
    if i < |src| { StripStep(src, i); } else { assert src[i..] == []; }
    LetterDigit(0, 'A');
    DecodeStops(t, u);
    if StrayBits(Strip(src)) {
      ghost var x :| Stray(Strip(src), x);
      SameLetters(t, u, x, Strip(src)[|x|..]);
    }
    if stop == AtInvalid { return -1; }
    var ok := CheckTail(src, i, state, rmap);
    if !ok { return -1; }
    assert state != 0 && Acc(t)[tarindex] != 0 ==> Stray(Strip(src), t);
    r := tarindex;
  }

  /** The letters at the front of a string are determined by it. */
  lemma SameLetters(t: string, u: string, x: string, y: string)
    requires Letters(t) && Letters(x) && t + u == x + y && (u == [] || !IsLetter(u[0])) && (y == [] || !IsLetter(y[0]))
    ensures t == x && u == y
  {
    var s := t + u;
    assert (forall i :: 0 <= i < |t| ==> s[i] == t[i]) && (forall i :: 0 <= i < |x| ==> s[i] == x[i]);
    assert (|t| < |s| ==> s[|t|] == u[0]) && (|x| < |s| ==> s[|x|] == y[0]);
    assert s[..|t|] == t && s[..|x|] == x && s[|t|..] == u && s[|x|..] == y;
  }

  /**
   `b64_pton`. With a buffer that is large enough it accepts a string, with bytes `b`, if and only if
   the string without white space is the encoding of `b`. Without a buffer it returns the length of
   `b`, and accepts strings with stray bits besides.
   */
  method Pton(src: string, target: array?<byte>) returns (r: int)
    requires SevenBit(src)
    modifies if target == null then {} else {target}
    ensures -1 <= r
    ensures target != null && r >= 0 ==> r <= target.Length && Strip(src) == Encode(target[..r])
    ensures target != null ==>
              (r >= 0 <==> (exists b :: Strip(src) == Encode(b)) && Length(Lead(Strip(src))) <= target.Length)
    ensures target != null && r == -1 && target.Length >= CalculateSize(|src|) ==> forall b :: Strip(src) != Encode(b)
    ensures target == null ==> forall b :: Strip(src) == Encode(b) ==> r == |b|
    ensures target == null && (forall b :: Strip(src) != Encode(b)) ==> (r >= 0 <==> StrayBits(Strip(src)))
  {
    hide Encode, Decode;
    var rmap := new int[256];
    InitializeRmap(rmap);
    forall b ensures Decode(Strip(src)) == Some(b) <==> Strip(src) == Encode(b) { DecodeIsCanonical(Strip(src), b); }
    if target != null {
      r := PtonDo(src, target, rmap);
    } else {
      r := PtonLen(src, rmap);
      assert Decode(Strip(src)).Some? ==> Strip(src) == Encode(Decode(Strip(src)).value);
    }
  }

  /** "AB==" is the encoding of nothing, but it has stray bits, so it has a length. */
  lemma StrayLength()
    ensures StrayBits("AB==") && forall b :: Encode(b) != "AB=="
  {
    AccTwo("AB");
    assert "AB==" == "AB" + [PAD, PAD] && Stray("AB==", "AB");
    assert "AB=="[..4][2] == PAD && "AB=="[..3][2] == PAD;
    assert Decode("AB==").None?;
    forall b ensures Encode(b) != "AB==" { DecodeIsCanonical("AB==", b); }
  }

  /** The calculated size is that of the bytes and a terminator, and of the padding at most. */
  lemma SizeIsTight(b: seq<byte>)
    ensures |b| + 1 <= CalculateSize(|Encode(b)|) <= |b| + 3
  {
    EncodeLength(b);
    hide Encode;
    var k := (|b| + 2) / 3;
    assert (4 * k + 3) / 4 == k;
  }

  /** White space is what C's locale calls it: blank, tab, line feed, vertical tab, form feed, carriage return. */
  lemma WhiteSpace(c: char)
    ensures IsSpace(c) <==> c == ' ' || c == '\t' || c == '\n' || c as int == 11 || c as int == 12 || c == '\r'
  {
  }
}
