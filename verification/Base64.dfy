/** Base64::encode and Base64::decode (engine/Base64.cpp:74-288), with their cursors and in-place writes. */
module Base64 {
  import opened Bytes
  import opened Blocks
  import opened Base64Text
  import opened Base64Laws

  const UINT_LIMIT := 0x1_0000_0000

  // ---------- encoder

  lemma CharsOfBlock(b: seq<byte>)
    requires |b| >= 3
    ensures Chars(b) == [Alphabet(Code0(b[0])), Alphabet(Code1(b[0], b[1])), Alphabet(Code2(b[1], b[2])),
                         Alphabet(Code3(b[2]))] + Chars(b[3..])
  {
    SextetsAreCodes(b);
    SextetsAreCodes(b[3..]);
  }

  method AddEoln(dest: array<byte>, idx: nat, lines: nat, crtLine: nat, lineLen: nat)
    returns (idx': nat, lines': nat, crtLine': nat)
    requires idx + 2 * lines <= dest.Length
    modifies dest
    ensures if lines != 0 && crtLine == lineLen then
              lines' == lines - 1 && crtLine' == 0 && idx' == idx + 2 && dest[..idx'] == old(dest[..idx]) + EOLN
            else lines' == lines && crtLine' == crtLine && idx' == idx && dest[..idx'] == old(dest[..idx])
    ensures idx' + 2 * lines' == idx + 2 * lines
    ensures forall k :: idx' <= k < dest.Length ==> dest[k] == old(dest[k])
  {
    if !(lines != 0 && crtLine == lineLen) {
      return idx, lines, crtLine;
    }
    dest[idx] := EOLN[0];
    dest[idx + 1] := EOLN[1];
    idx', crtLine', lines' := idx + 2, 0, lines - 1;
  }

  /** Write one code. `rest` are the characters still to come and `all` what the buffer will hold in the end. */
  method AddEnc(dest: array<byte>, idx: nat, ch: byte, lines: nat, crtLine: nat, lineLen: nat,
                ghost rest: seq<byte>, ghost all: seq<byte>) returns (idx': nat, lines': nat, crtLine': nat)
    requires idx + 1 + 2 * lines <= dest.Length
    requires dest[..idx] + Broken([Alphabet(ch & 0x3f)] + rest, lineLen, crtLine, lines) == all
    modifies dest
    ensures idx < idx' && idx' + 2 * lines' == idx + 1 + 2 * lines
    ensures dest[..idx'] + Broken(rest, lineLen, crtLine', lines') == all
    ensures forall k :: idx' <= k < dest.Length ==> dest[k] == old(dest[k])
  {
    ghost var before := dest[..idx];
    dest[idx] := Alphabet(ch & 0x3f);
    assert dest[..idx + 1] == before + [Alphabet(ch & 0x3f)];
    idx', lines', crtLine' := AddEoln(dest, idx + 1, lines, crtLine + 1, lineLen);
  }

  /** The body of the encoder's loop: three bytes become four characters. */
  method EncodeBlock(dest: array<byte>, x: byte, y: byte, z: byte, iDest: nat, lines: nat, crtLine: nat, lineLen: nat,
                     ghost rest: seq<byte>, ghost all: seq<byte>)
    returns (iDest': nat, lines': nat, crtLine': nat)
    requires iDest + 4 + 2 * lines <= dest.Length
    requires dest[..iDest] + Broken([Alphabet(Code0(x)), Alphabet(Code1(x, y)), Alphabet(Code2(y, z)),
                                     Alphabet(Code3(z))] + rest, lineLen, crtLine, lines) == all
    modifies dest
    ensures iDest < iDest' && iDest' + 2 * lines' == iDest + 4 + 2 * lines
    ensures dest[..iDest'] + Broken(rest, lineLen, crtLine', lines') == all
    ensures forall k :: iDest' <= k < dest.Length ==> dest[k] == old(dest[k])
  {
    ghost var c0, c1, c2, c3 := Alphabet(Code0(x)), Alphabet(Code1(x, y)), Alphabet(Code2(y, z)), Alphabet(Code3(z));
    MaskCodes(x, y, z);
    assert [c0, c1, c2, c3] + rest == [c0] + ([c1, c2, c3] + rest);
    assert [c1, c2, c3] + rest == [c1] + ([c2, c3] + rest);
    assert [c2, c3] + rest == [c2] + ([c3] + rest);
    iDest', lines', crtLine' := AddEnc(dest, iDest, x >> 2, lines, crtLine, lineLen, [c1, c2, c3] + rest, all);
    iDest', lines', crtLine' :=
      AddEnc(dest, iDest', (x << 4) | (y >> 4), lines', crtLine', lineLen, [c2, c3] + rest, all);
    iDest', lines', crtLine' := AddEnc(dest, iDest', (y << 2) | (z >> 6), lines', crtLine', lineLen, [c3] + rest, all);
    iDest', lines', crtLine' := AddEnc(dest, iDest', z, lines', crtLine', lineLen, rest, all);
  }

  method Encode(s: seq<byte>, lineLen: nat, lineAtEnd: bool) returns (text: seq<byte>)
    requires EncodedLength(|s|) + 2 * LineBreaks(EncodedLength(|s|), lineLen) < UINT_LIMIT
    ensures text == Encoded(s, lineLen, lineAtEnd)
  {
    if |s| == 0 {
      return [];
    }
    var rest := |s| % 3;
    var full := |s| - rest;
    var len := full / 3 * 4 + if rest != 0 then 4 else 0;
    var lines := CountLines(len, lineLen);
    CharsFit(s);
    text := FillBuffer(s, full, rest, len, lines, lineLen);
    if lineAtEnd {
      text := text + EOLN;
    }
  }

  lemma CharsFit(b: seq<byte>)
    ensures |Chars(b)| <= EncodedLength(|b|)
  {
    PaddingCount(|b|);
  }

  method FillBuffer(s: seq<byte>, full: nat, rest: nat, len: nat, lines: nat, lineLen: nat) returns (text: seq<byte>)
    requires rest < 3 && |s| == full + rest && full % 3 == 0 && |Chars(s)| <= len
    requires lines == LineBreaks(len, lineLen)
    ensures text == Filled(Chars(s), len, lineLen)
  {
    BrokenLength(Chars(s), lineLen, 0, lines);
    var dest := new byte[len + lines * 2](_ => PAD);
    var iDest := EncodeChars(dest, s, full, rest, lines, lineLen);
    text := dest[..];
  }

  method CountLines(len: nat, lineLen: nat) returns (lines: nat)
    ensures lines == LineBreaks(len, lineLen)
  {
    lines := 0;
    if lineLen != 0 {
      lines := len / lineLen;
      if len % lineLen == 0 && lines != 0 {
        lines := lines - 1;
      }
    }
  }

  /** The two writing stages of the encoder. The final write position leaves exactly the fill behind it. */
  method EncodeChars(dest: array<byte>, s: seq<byte>, full: nat, rest: nat, lines0: nat, lineLen: nat)
    returns (iDest: nat)
    requires rest < 3 && |s| == full + rest && full % 3 == 0
    requires |Chars(s)| + 2 * lines0 <= dest.Length
    requires forall k :: 0 <= k < dest.Length ==> dest[k] == PAD
    modifies dest
    ensures iDest <= dest.Length && dest[..iDest] == Broken(Chars(s), lineLen, 0, lines0)
    ensures forall k :: iDest <= k < dest.Length ==> dest[k] == PAD
  {
    var lines, crtLine, i := lines0, 0, 0;
    iDest := 0;
    ghost var all := Broken(Chars(s), lineLen, 0, lines);
    assert s[0..] == s;
    ghost var blocks := 0;
    while i < full
      invariant 0 <= blocks <= full / 3 && i == 3 * blocks
      invariant 0 <= lines && 0 <= crtLine && iDest <= dest.Length
      invariant iDest + |Chars(s[i..])| + 2 * lines <= dest.Length
      invariant dest[..iDest] + Broken(Chars(s[i..]), lineLen, crtLine, lines) == all
      invariant forall k :: iDest <= k < dest.Length ==> dest[k] == PAD
    {
      CharsOfBlock(s[i..]);
      assert s[i..][3..] == s[i + 3..];
      iDest, lines, crtLine := EncodeBlock(dest, s[i], s[i + 1], s[i + 2], iDest, lines, crtLine, lineLen,
                                           Chars(s[i + 3..]), all);
      i, blocks := i + 3, blocks + 1;
    }
    if rest != 0 {
      iDest, lines, crtLine := EncodeRest(dest, s[i..], iDest, lines, crtLine, lineLen, all);
    } else {
      assert s[i..] == [] && Chars([]) == [];
    }
  }

  /** The padded end of the encoder: one or two bytes become two or three characters. */
  method EncodeRest(dest: array<byte>, s: seq<byte>, iDest: nat, lines: nat, crtLine: nat, lineLen: nat,
                    ghost all: seq<byte>)
    returns (iDest': nat, lines': nat, crtLine': nat)
    requires |s| == 1 || |s| == 2
    requires iDest + |Chars(s)| + 2 * lines <= dest.Length
    requires dest[..iDest] + Broken(Chars(s), lineLen, crtLine, lines) == all
    modifies dest
    ensures iDest' <= dest.Length && dest[..iDest'] == all
    ensures forall k :: iDest' <= k < dest.Length ==> dest[k] == old(dest[k])
  {
    var i := 0;
    ghost var c := Chars(s);
    MaskCodes(s[0], if |s| == 1 then 0 else s[1], 0);
    assert c == [c[0]] + c[1..];
    iDest', lines', crtLine' := AddEnc(dest, iDest, s[i] >> 2, lines, crtLine, lineLen, c[1..], all);
    if |s| == 1 {
      assert c[1..] == [c[1]] + [];
      iDest', lines', crtLine' := AddEnc(dest, iDest', s[i] << 4, lines', crtLine', lineLen, [], all);
      BrokenNothing(dest[..iDest'], lineLen, crtLine', lines');
    } else {
      assert c[1..] == [c[1], c[2]];
      iDest', lines', crtLine' := EncodeLastTwo(dest, s[i], s[i + 1], iDest', lines', crtLine', lineLen, all);
    }
  }

  /** The second and third character of a last group of two bytes. */
  method EncodeLastTwo(dest: array<byte>, x: byte, y: byte, iDest: nat, lines: nat, crtLine: nat, lineLen: nat,
                       ghost all: seq<byte>) returns (iDest': nat, lines': nat, crtLine': nat)
    requires iDest + 2 + 2 * lines <= dest.Length
    requires dest[..iDest] + Broken([Alphabet(Code1(x, y)), Alphabet(Code2(y, 0))], lineLen, crtLine, lines) == all
    modifies dest
    ensures iDest' <= dest.Length && dest[..iDest'] == all
    ensures forall k :: iDest' <= k < dest.Length ==> dest[k] == old(dest[k])
  {
    MaskCodes(x, y, 0);
    ghost var c1, c2 := Alphabet(Code1(x, y)), Alphabet(Code2(y, 0));
    assert [c1, c2] == [c1] + [c2] && [c2] == [c2] + [];
    iDest', lines', crtLine' := AddEnc(dest, iDest, (x << 4) | (y >> 4), lines, crtLine, lineLen, [c2], all);
    iDest', lines', crtLine' := AddEnc(dest, iDest', y << 2, lines', crtLine', lineLen, [], all);
    BrokenNothing(dest[..iDest'], lineLen, crtLine', lines');
  }

  lemma BrokenNothing(t: seq<byte>, lineLen: nat, crtLine: nat, lines: nat)
    ensures t + Broken([], lineLen, crtLine, lines) == t
  {
  }

  /** Masking the shifted bytes gives the codes. */
  lemma MaskCodes(x: byte, y: byte, z: byte)
    ensures (x >> 2) & 0x3f == Code0(x)
    ensures (x << 4) & 0x3f == Code1(x, 0)
    ensures (y << 2) & 0x3f == Code2(y, 0)
  {
  }

  // ---------- decoder

  /** -1 to ignore a character, 1 to accept it, 0 on error. */
  function ValidLiberal(ch: byte): int {
    if IsIgnored(ch) then -1 else if IsValid(ch) then 1 else 0
  }

  /** The bytes the first n codes of a group carry, and whether the bits left over are zero. */
  function DecBytes(dec: seq<byte>, n: nat): (b: seq<byte>)
    requires |dec| == 4 && 2 <= n <= 4
    ensures |b| == n - 1
  {
    if n == 4 then BytesOf4(dec[0], dec[1], dec[2], dec[3])
    else if n == 3 then [Byte0(dec[0], dec[1]), Byte1(dec[1], dec[2])]
    else [Byte0(dec[0], dec[1])]
  }

  predicate NoGarbage(dec: seq<byte>, n: nat)
    requires |dec| == 4
  {
    if n == 3 then dec[2] & 0x03 == 0 else if n == 2 then dec[1] & 0x0f == 0 else true
  }

  /** Write the bytes of a group, if the destination has room for them. */
  method AddDec(dest: DataBlock, idx: nat, dec: seq<byte>, len: nat) returns (ok: bool, idx': nat)
    requires dest.Valid() && |dec| == 4
    modifies dest.data
    ensures dest.Valid()
    ensures if len == 0 || len == 1 || len > 4 then
              ok == (len == 0) && idx' == idx && dest.Contents() == old(dest.Contents())
            else if idx + len - 1 > dest.length then
              !ok && idx' == idx && dest.Contents() == old(dest.Contents())
            else
              && ok == NoGarbage(dec, len) && idx' == idx + len - 1
              && dest.Contents()[..idx] == old(dest.Contents())[..idx]
              && dest.Contents()[idx..idx'] == DecBytes(dec, len)
              && dest.Contents()[idx'..] == old(dest.Contents())[idx'..]
  {
    idx' := idx;
    if len == 0 {
      return true, idx;
    }
    if len == 1 || len > 4 {
      return false, idx;
    }
    var n := len - 1;
    if idx + n > dest.length {
      return false, idx;
    }
    idx' := idx + n;
    if n == 3 {
      dest.data[idx] := (dec[0] << 2) | (dec[1] >> 4);
      dest.data[idx + 1] := (dec[1] << 4) | (dec[2] >> 2);
      dest.data[idx + 2] := (dec[2] << 6) | dec[3];
      ok := true;
    } else if n == 2 {
      dest.data[idx] := (dec[0] << 2) | (dec[1] >> 4);
      dest.data[idx + 1] := (dec[1] << 4) | (dec[2] >> 2);
      ok := dec[2] & 0x03 == 0;
    } else {
      dest.data[idx] := (dec[0] << 2) | (dec[1] >> 4);
      ok := dec[1] & 0x0f == 0;
    }
  }

  /** `out` is what all codes but the last `todo` carry, and room for the rest is left in len bytes. */
  ghost predicate Reached(len: nat, out: seq<byte>, codes: seq<byte>, todo: seq<byte>) {
    && len == OctetCount(|codes|) && |out| + OctetCount(|todo|) == len
    && Prepend(out, Octets(todo)) == Octets(codes)
  }

  /** Decoding has reached a point where `todo` codes are left and the destination, unless it could not be
      allocated, holds what the others carry. */
  ghost predicate Progress(dest: DataBlock, iDest: nat, codes: seq<byte>, todo: seq<byte>)
    requires dest.Valid()
    reads dest, dest.heap, dest.data
  {
    if dest.length == 0 then iDest == 0
    else iDest <= dest.length && Reached(dest.length, dest.Contents()[..iDest], codes, todo)
  }

  /** Bytes carried by n codes. */
  function OctetCount(n: nat): nat {
    if n < 4 then Rest(n) else 3 + OctetCount(n - 4)
  }

  lemma {:induction false} OctetCountIs(n: nat)
    ensures OctetCount(n) == n / 4 * 3 + Rest(n % 4)
  {
    if n >= 4 {
      OctetCountIs(n - 4);
    }
  }

  lemma ReachedStep(len: nat, out: seq<byte>, dec: seq<byte>, codes: seq<byte>, todo: seq<byte>)
    requires |dec| == 4 && Reached(len, out, codes, dec + todo)
    ensures Reached(len, out + DecBytes(dec, 4), codes, todo)
  {
    assert (dec + todo)[4..] == todo;
    PrependTwice(out, DecBytes(dec, 4), Octets(todo));
  }

  /** One full group is decoded. */
  method DecodeGroup(dest: DataBlock, iDest: nat, dec: seq<byte>, ghost codes: seq<byte>, ghost todo: seq<byte>)
    returns (iDest': nat)
    requires dest.Valid() && |dec| == 4
    requires Progress(dest, iDest, codes, dec + todo)
    modifies dest.data
    ensures dest.Valid() && Progress(dest, iDest', codes, todo)
  {
    ghost var out := dest.Contents()[..iDest];
    var _, i := AddDec(dest, iDest, dec, 4);
    iDest' := i;
    if dest.length != 0 {
      ReachedStep(dest.length, out, dec, codes, todo);
      assert dest.Contents()[..iDest'] == out + DecBytes(dec, 4);
    }
  }

  lemma PrependTwice(a: seq<byte>, b: seq<byte>, rest: Option<seq<byte>>)
    ensures Prepend(a, Prepend(b, rest)) == Prepend(a + b, rest)
  {
    if rest.Some? {
      assert a + (b + rest.value) == a + b + rest.value;
    }
  }

  /** The end of the decoder: the last group, of 0, 2 or 3 codes. */
  method DecodeLast(dest: DataBlock, iDest: nat, dec: seq<byte>, rest: nat, ghost codes: seq<byte>) returns (ok: bool)
    requires dest.Valid() && |dec| == 4 && rest < 4 && rest != 1
    requires Progress(dest, iDest, codes, dec[..rest])
    modifies dest.data
    ensures dest.Valid()
    ensures if dest.length != 0 then ok == Octets(codes).Some? && (ok ==> dest.Contents() == Octets(codes).value)
            else ok == (rest == 0)
  {
    ghost var out := dest.Contents();
    var added, _ := AddDec(dest, iDest, dec, rest);
    ok := added;
    if dest.length != 0 {
      if rest == 0 {
        assert dec[..0] == [];
        assert out[..iDest] + [] == out;
      } else {
        assert dest.Contents() == out[..iDest] + DecBytes(dec, rest);
      }
    }
  }

  lemma StartOfDecoding(dest: DataBlock, codes: seq<byte>)
    requires dest.Valid()
    requires dest.length == 0 || dest.length == OctetCount(|codes|)
    ensures Progress(dest, 0, codes, codes)
  {
    assert dest.Contents()[..0] == [];
    if Octets(codes).Some? {
      assert [] + Octets(codes).value == Octets(codes).value;
    }
  }

  /** One group of the strict decoder; false at the first character outside the alphabet. */
  method ReadGroup(s: seq<byte>) returns (ok: bool, dec: seq<byte>)
    requires |s| == 4
    ensures ok == AllValid(s)
    ensures |dec| == 4 && (ok ==> dec == Codes(s))
  {
    dec := [0, 0, 0, 0];
    for a := 0 to 4
      invariant |dec| == 4 && forall k :: 0 <= k < a ==> IsValid(s[k]) && dec[k] == Ato64(s[k])
    {
      if !IsValid(s[a]) {
        return false, dec;
      }
      dec := dec[a := Ato64(s[a])];
    }
    ok := true;
  }

  /** The strict decoder, on the text t before the final padding: groups first, then the two or three characters
      of the rest. */
  method DecodeStrict(dest: DataBlock, t: seq<byte>, full: nat, rest: nat, ghost n: nat)
    returns (ok: bool, iDest: nat, dec: seq<byte>)
    requires dest.Valid() && full == 4 * n && rest < 4 && rest != 1 && |t| == full + rest
    requires Progress(dest, 0, Codes(t), Codes(t))
    modifies dest.data
    ensures dest.Valid() && |dec| == 4
    ensures ok == AllValid(t)
    ensures ok ==> Progress(dest, iDest, Codes(t), dec[..rest])
  {
    ok, iDest, dec := StrictGroups(dest, t, full, n);
    if !ok {
      return;
    }
    ok, dec := ReadRest(t[full..]);
    RestIsValid(t, full);
  }

  /** The strict decoder's loop over the full groups. */
  method StrictGroups(dest: DataBlock, t: seq<byte>, full: nat, ghost n: nat)
    returns (ok: bool, iDest: nat, dec: seq<byte>)
    requires dest.Valid() && full == 4 * n <= |t| && Progress(dest, 0, Codes(t), Codes(t))
    modifies dest.data
    ensures dest.Valid() && |dec| == 4
    ensures if ok then ReadUpTo(dest, t, full, iDest) else !AllValid(t)
  {
    ghost var groups := 0;
    var i := 0;
    ok, iDest, dec := true, 0, [0, 0, 0, 0];
    assert t[0..] == t;
    while i < full
      invariant 0 <= groups <= n && i == 4 * groups
      invariant ok && |dec| == 4 && dest.Valid() && ReadUpTo(dest, t, i, iDest)
    {
      ok, iDest, dec := StrictGroup(dest, t, i, iDest);
      if !ok {
        assert !AllValid(t);
        return;
      }
      assert ReadUpTo(dest, t, i + 4, iDest);
      i, groups := i + 4, groups + 1;
    }
    assert i == full;
  }

  /** The first i characters of t are valid and their octets in place. */
  ghost predicate ReadUpTo(dest: DataBlock, t: seq<byte>, i: nat, iDest: nat)
    requires dest.Valid()
    reads dest, dest.heap, dest.data
  {
    i <= |t| && AllValid(t[..i]) && Progress(dest, iDest, Codes(t), Codes(t[i..]))
  }

  lemma RestIsValid(t: seq<byte>, i: nat)
    requires i <= |t| && AllValid(t[..i])
    ensures AllValid(t) <==> AllValid(t[i..])
  {
    ExtendValid(t, i, |t|);
    assert t[i..|t|] == t[i..] && t[..|t|] == t;
  }

  /** The body of the strict decoder's loop. */
  method StrictGroup(dest: DataBlock, t: seq<byte>, i: nat, iDest: nat) returns (ok: bool, iDest': nat, dec: seq<byte>)
    requires dest.Valid() && i + 4 <= |t| && ReadUpTo(dest, t, i, iDest)
    modifies dest.data
    ensures dest.Valid() && |dec| == 4
    ensures if ok then ReadUpTo(dest, t, i + 4, iDest') else !AllValid(t)
  {
    ghost var codes := Codes(t);
    iDest' := iDest;
    ok, dec := ReadGroup(t[i..i + 4]);
    ExtendValid(t, i, i + 4);
    if ok {
      assert Codes(t[i..]) == dec + Codes(t[i + 4..]);
      iDest' := DecodeGroup(dest, iDest, dec, codes, Codes(t[i + 4..]));
    }
  }

  lemma ExtendValid(t: seq<byte>, i: nat, j: nat)
    requires i <= j <= |t|
    ensures AllValid(t[..j]) <==> AllValid(t[..i]) && AllValid(t[i..j])
    ensures AllValid(t) ==> AllValid(t[..j])
  {
    if AllValid(t[..j]) {
      assert forall k :: 0 <= k < i ==> t[..i][k] == t[..j][k];
      assert forall k :: 0 <= k < j - i ==> t[i..j][k] == t[..j][i + k];
    }
    if AllValid(t[..i]) && AllValid(t[i..j]) {
      assert forall k :: i <= k < j ==> t[..j][k] == t[i..j][k - i];
    }
  }

  method ReadRest(s: seq<byte>) returns (ok: bool, dec: seq<byte>)
    requires |s| == 0 || |s| == 2 || |s| == 3
    ensures ok == AllValid(s)
    ensures |dec| == 4 && (ok ==> dec[..|s|] == Codes(s))
  {
    dec := [0, 0, 0, 0];
    if |s| != 0 {
      if !IsValid(s[0]) || !IsValid(s[1]) {
        return false, dec;
      }
      dec := dec[0 := Ato64(s[0])][1 := Ato64(s[1])];
      if |s| == 3 {
        if !IsValid(s[2]) {
          return false, dec;
        }
        dec := dec[2 := Ato64(s[2])];
      }
    }
    ok := true;
  }

  /** The liberal decoder's loop: collect accepted characters, four at a time. */
  method DecodeLiberal(dest: DataBlock, s: seq<byte>, ghost codes: seq<byte>)
    returns (ok: bool, iDest: nat, dec: seq<byte>, iDec: nat)
    requires dest.Valid() && codes == Codes(Keep(s)) && Progress(dest, 0, codes, codes)
    modifies dest.data
    ensures dest.Valid() && |dec| == 4 && iDec < 4
    ensures ok == AllReadable(s)
    ensures ok ==> Progress(dest, iDest, codes, dec[..iDec]) && iDec == |codes| % 4
  {
    iDec, iDest, dec := 0, 0, [0, 0, 0, 0];
    assert s[0..] == s && dec[..0] + codes == codes;
    ghost var groups := 0;
    for i := 0 to |s|
      invariant 0 <= iDec < 4 && |dec| == 4 && AllReadable(s[..i])
      invariant |codes| == 4 * groups + iDec + |Keep(s[i..])|
      invariant dest.Valid() && Progress(dest, iDest, codes, dec[..iDec] + Codes(Keep(s[i..])))
    {
      var res := ValidLiberal(s[i]);
      ReadableStep(s, i);
      if res == 0 {
        return false, iDest, dec, iDec;
      }
      if res < 0 {
        continue;
      }
      CodesOfNext(dec[..iDec], s[i], Keep(s[i + 1..]));
      if iDec == 3 {
        groups := groups + 1;
      }
      iDest, dec, iDec := LiberalChar(dest, iDest, dec, iDec, s[i], codes, Codes(Keep(s[i + 1..])));
    }
    assert s[..|s|] == s && s[|s|..] == [] && dec[..iDec] + [] == dec[..iDec];
    LastGroup(|codes|, groups, iDec);
    ok := true;
  }

  lemma ReadableStep(s: seq<byte>, i: nat)
    requires i < |s| && AllReadable(s[..i])
    ensures if ValidLiberal(s[i]) == 0 then !AllReadable(s) else AllReadable(s[..i + 1])
    ensures Keep(s[i..]) == if ValidLiberal(s[i]) < 0 then Keep(s[i + 1..]) else [s[i]] + Keep(s[i + 1..])
  {
    assert s[i..][1..] == s[i + 1..];
    assert s[..i + 1][i] == s[i];
    forall k | 0 <= k < i ensures s[..i + 1][k] == s[..i][k] {
    }
  }

  /** What the liberal decoder does with one character of the alphabet. */
  method LiberalChar(dest: DataBlock, iDest: nat, dec: seq<byte>, iDec: nat, ch: byte, ghost codes: seq<byte>,
                     ghost later: seq<byte>) returns (iDest': nat, dec': seq<byte>, iDec': nat)
    requires dest.Valid() && |dec| == 4 && iDec < 4
    requires Progress(dest, iDest, codes, dec[..iDec] + [Ato64(ch)] + later)
    modifies dest.data
    ensures dest.Valid() && |dec'| == 4 && iDec' == (if iDec == 3 then 0 else iDec + 1)
    ensures Progress(dest, iDest', codes, dec'[..iDec'] + later)
  {
    iDest', dec', iDec' := iDest, dec[iDec := Ato64(ch)], iDec + 1;
    assert dec'[..iDec'] == dec[..iDec] + [Ato64(ch)];
    if iDec' == 4 {
      assert dec'[..iDec'] == dec';
      iDest' := DecodeGroup(dest, iDest, dec', codes, later);
      iDec' := 0;
      assert dec'[..0] + later == later;
    }
  }

  lemma LastGroup(n: nat, groups: nat, r: nat)
    requires n == 4 * groups + r && r < 4
    ensures n % 4 == r
  {
  }

  lemma CodesOfNext(before: seq<byte>, c: byte, rest: seq<byte>)
    ensures before + Codes([c] + rest) == before + [Ato64(c)] + Codes(rest)
  {
    assert Codes([c] + rest) == [Ato64(c)] + Codes(rest);
  }

  method CountLiberal(s: seq<byte>) returns (ok: bool, n: nat)
    ensures ok == AllReadable(s)
    ensures ok ==> n == |Keep(s)|
  {
    n := 0;
    for i := 0 to |s|
      invariant forall k :: 0 <= k < i ==> IsValid(s[k]) || IsIgnored(s[k])
      invariant n + |Keep(s[i..])| == |Keep(s)|
    {
      assert s[i..][1..] == s[i + 1..];
      var res := ValidLiberal(s[i]);
      if res == 0 {
        return false, n;
      }
      if res > 0 {
        n := n + 1;
      }
    }
    ok := true;
  }

  method CountStrict(s: seq<byte>) returns (n: nat)
    ensures n <= |s| && StripPad(s) == s[..n]
  {
    n := |s|;
    assert s[..n] == s;
    while n != 0
      invariant n <= |s| && StripPad(s) == StripPad(s[..n])
    {
      assert s[..n][..n - 1] == s[..n - 1];
      if s[n - 1] != PAD {
        break;
      }
      n := n - 1;
    }
  }

  /** Decode a text to dest. With memory for the result, success and result are those of the two readings.
      Without it the destination stays empty; a text of whole groups is then still reported as decoded. */
  method Decode(s: seq<byte>, dest: DataBlock, liberal: bool) returns (ok: bool)
    requires dest.Valid() && dest.Fits(|s|)
    modifies dest, dest.heap, dest.data
    ensures dest.Valid() && dest.overAlloc == old(dest.overAlloc)
    ensures dest.heap.live == old(dest.heap.live) - old(dest.Owned()) + dest.Owned()
    ensures var meant := if liberal then LiberalDecode(s) else StrictDecode(s);
            if dest.heap.failures == old(dest.heap.failures) then
              ok == meant.Some? && (ok ==> dest.Contents() == meant.value)
            else
              dest.Contents() == []
              && ok == (meant.Some? && |if liberal then Keep(s) else StripPad(s)| % 4 == 0)
    ensures var n := |if liberal then Keep(s) else StripPad(s)|;
            dest.heap.failures == old(dest.heap.failures) ==>
              dest.length == if n == 0 || n % 4 == 1 || (liberal && !AllReadable(s)) then 0 else OctetCount(n)
  {
    dest.Clear();
    var full: nat := 0;
    if liberal {
      var readable, n := CountLiberal(s);
      if !readable {
        return false;
      }
      full := n;
      KeepKeepsReadable(s);
    } else {
      full := CountStrict(s);
    }
    ghost var t := if liberal then Keep(s) else StripPad(s);
    assert |t| == full;
    var rest := full % 4;
    full := full - rest;
    if !(full != 0 || rest != 0) || rest == 1 {
      return false;
    }
    KeepIsShorter(s);
    ok := DecodeTo(dest, s, liberal, full, rest);
  }

  /** The part of decode after the counting. */
  method DecodeTo(dest: DataBlock, s: seq<byte>, liberal: bool, full: nat, rest: nat) returns (ok: bool)
    requires dest.Valid() && dest.data == null && dest.Fits(|s|)
    requires full % 4 == 0 && rest < 4 && rest != 1 && 0 < full + rest <= |s|
    requires liberal ==> full + rest == |Keep(s)| && AllReadable(s)
    requires !liberal ==> StripPad(s) == s[..full + rest]
    modifies dest, dest.heap
    ensures dest.Valid() && dest.overAlloc == old(dest.overAlloc)
    ensures dest.heap.live == old(dest.heap.live) + dest.Owned()
    ensures var meant := if liberal then LiberalDecode(s) else StrictDecode(s);
            if dest.heap.failures == old(dest.heap.failures) then
              ok == meant.Some? && (ok ==> dest.Contents() == meant.value)
            else
              dest.Contents() == [] && ok == (meant.Some? && rest == 0)
    ensures dest.heap.failures == old(dest.heap.failures) ==> dest.length == OctetCount(full + rest)
  {
    ghost var codes := Codes(if liberal then Keep(s) else s[..full + rest]);
    dest.Assign(null, full / 4 * 3 + if rest != 0 then rest - 1 else 0);
    OctetCountIs(|codes|);
    StartOfDecoding(dest, codes);
    OctetsLength(codes);
    ok := DecodeInto(dest, s, liberal, full, rest, codes);
    MeantIs(s, liberal, full, rest);
  }

  ghost predicate Readable(s: seq<byte>, liberal: bool, n: nat)
    requires n <= |s|
  {
    if liberal then AllReadable(s) else AllValid(s[..n])
  }

  lemma MeantIs(s: seq<byte>, liberal: bool, full: nat, rest: nat)
    requires full % 4 == 0 && rest < 4 && rest != 1 && 0 < full + rest <= |s|
    requires liberal ==> full + rest == |Keep(s)| && AllReadable(s)
    requires !liberal ==> StripPad(s) == s[..full + rest]
    ensures (if liberal then LiberalDecode(s) else StrictDecode(s))
            == if Readable(s, liberal, full + rest) then
                 Octets(Codes(if liberal then Keep(s) else s[..full + rest]))
               else None
  {
    if liberal {
      KeepKeepsReadable(s);
    }
  }

  /** Read the characters and write the bytes into the allocated block. */
  method DecodeInto(dest: DataBlock, s: seq<byte>, liberal: bool, full: nat, rest: nat, ghost codes: seq<byte>)
    returns (ok: bool)
    requires dest.Valid() && full % 4 == 0 && rest < 4 && rest != 1 && full + rest <= |s|
    requires |codes| == full + rest
    requires liberal ==> codes == Codes(Keep(s))
    requires !liberal ==> codes == Codes(s[..full + rest])
    requires Progress(dest, 0, codes, codes)
    modifies dest.data
    ensures dest.Valid()
    ensures !Readable(s, liberal, full + rest) ==> !ok
    ensures Readable(s, liberal, full + rest) ==>
              if dest.length != 0 then ok == Octets(codes).Some? && (ok ==> dest.Contents() == Octets(codes).value)
              else ok == (rest == 0)
  {
    var iDest, dec, iDec;
    if !liberal {
      ok, iDest, dec := DecodeStrict(dest, s[..full + rest], full, rest, full / 4);
    } else {
      ok, iDest, dec, iDec := DecodeLiberal(dest, s, codes);
    }
    if !ok {
      return;
    }
    ok := DecodeLast(dest, iDest, dec, rest, codes);
  }

  lemma {:induction false} KeepIsShorter(s: seq<byte>)
    ensures |Keep(s)| <= |s|
  {
    if s != [] {
      KeepIsShorter(s[1..]);
    }
  }
}