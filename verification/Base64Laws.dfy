/** What the Base64 encoder and the two decoders promise each other. */
module Base64Laws {
  import opened Bytes
  import opened Base64Text
  import opened Numbers

  // ---------- reading a text

  /** Strict reading: padding is dropped from the end only. */
  function StripPad(s: seq<byte>): seq<byte> {
    if s != [] && s[|s| - 1] == PAD then StripPad(s[..|s| - 1]) else s
  }

  /** Liberal reading: padding, line breaks and blanks are dropped everywhere. */
  function Keep(s: seq<byte>): seq<byte> {
    if s == [] then [] else if IsIgnored(s[0]) then Keep(s[1..]) else [s[0]] + Keep(s[1..])
  }

  function DecodeChars(t: seq<byte>): Option<seq<byte>> {
    if t == [] || |t| % 4 == 1 || !AllValid(t) then None else Octets(Codes(t))
  }

  function StrictDecode(s: seq<byte>): Option<seq<byte>> {
    DecodeChars(StripPad(s))
  }

  predicate AllReadable(s: seq<byte>) {
    forall k :: 0 <= k < |s| ==> IsValid(s[k]) || IsIgnored(s[k])
  }

  function LiberalDecode(s: seq<byte>): Option<seq<byte>> {
    if AllReadable(s) then DecodeChars(Keep(s)) else None
  }

  // ---------- dropping characters

  lemma {:induction false} StripPadded(t: seq<byte>, k: nat)
    requires t == [] || t[|t| - 1] != PAD
    ensures StripPad(t + Repeat(PAD, k)) == t
    decreases k
  {
    var s := t + Repeat(PAD, k);
    if k == 0 {
      assert s == t;
    } else {
      assert s[..|s| - 1] == t + Repeat(PAD, k - 1);
      StripPadded(t, k - 1);
    }
  }

  lemma {:induction false} StripDropsOnlyPadding(s: seq<byte>)
    ensures var t := StripPad(s);
            && |t| <= |s| && s == t + Repeat(PAD, |s| - |t|)
            && (t == [] || t[|t| - 1] != PAD)
    decreases |s|
  {
    if s != [] && s[|s| - 1] == PAD {
      StripDropsOnlyPadding(s[..|s| - 1]);
    }
  }

  lemma {:induction false} KeepConcat(s: seq<byte>, t: seq<byte>)
    ensures Keep(s + t) == Keep(s) + Keep(t)
    decreases |s|
  {
    if s == [] {
      assert s + t == t;
    } else {
      assert (s + t)[1..] == s[1..] + t;
      KeepConcat(s[1..], t);
    }
  }

  /** What is kept of one character; with KeepConcat, of any text. */
  lemma KeepOfOne(c: byte)
    ensures Keep([]) == [] && Keep([c]) == if c as char in "=\r\n\t " then [] else [c]
  {
    IgnoredAre(c);
    assert [c][1..] == [];
  }

  lemma {:induction false} KeepNothing(s: seq<byte>)
    requires forall k :: 0 <= k < |s| ==> IsIgnored(s[k])
    ensures Keep(s) == []
    decreases |s|
  {
    if s != [] {
      KeepNothing(s[1..]);
    }
  }

  lemma {:induction false} KeepKeepsReadable(s: seq<byte>)
    requires AllReadable(s)
    ensures AllValid(Keep(s))
    decreases |s|
  {
    if s != [] {
      KeepKeepsReadable(s[1..]);
    }
  }

  lemma {:induction false} KeepOfBroken(chars: seq<byte>, lineLen: nat, crtLine: nat, lines: nat)
    requires AllValid(chars)
    ensures Keep(Broken(chars, lineLen, crtLine, lines)) == chars && AllReadable(Broken(chars, lineLen, crtLine, lines))
    decreases |chars|
  {
    if chars != [] {
      var c := [chars[0]];
      KeepSymbol(chars[0]);
      if lines != 0 && crtLine + 1 == lineLen {
        var tail := Broken(chars[1..], lineLen, 0, lines - 1);
        KeepOfBroken(chars[1..], lineLen, 0, lines - 1);
        KeepEoln();
        KeepConcat(c + EOLN, tail);
        KeepConcat(c, EOLN);
        assert c + [] + chars[1..] == chars;
      } else {
        var tail := Broken(chars[1..], lineLen, crtLine + 1, lines);
        KeepOfBroken(chars[1..], lineLen, crtLine + 1, lines);
        KeepConcat(c, tail);
        assert c + chars[1..] == chars;
      }
    }
  }

  lemma KeepSymbol(c: byte)
    requires IsValid(c)
    ensures Keep([c]) == [c] && AllReadable([c])
  {
    AlphabetInverse(0, c);
    assert [c][1..] == [];
  }

  lemma KeepEoln()
    ensures Keep(EOLN) == [] && AllReadable(EOLN)
  {
    KeepNothing(EOLN);
  }

  lemma CharsDecode(b: seq<byte>)
    requires b != []
    ensures AllValid(Chars(b)) && DecodeChars(Chars(b)) == Some(b)
  {
    SextetsAreCodes(b);
    CodesOfSymbols(Sextets(b));
    OctetsOfSextets(b);
  }

  // ---------- round trips

  lemma KeepOfEncoded(b: seq<byte>, lineLen: nat, lineAtEnd: bool)
    requires b != [] && AllValid(Chars(b))
    ensures Keep(Encoded(b, lineLen, lineAtEnd)) == Chars(b) && AllReadable(Encoded(b, lineLen, lineAtEnd))
  {
    var chars, len := Chars(b), EncodedLength(|b|);
    var lines := LineBreaks(len, lineLen);
    var t := Broken(chars, lineLen, 0, lines);
    BrokenLength(chars, lineLen, 0, lines);
    EncodedParts(b, lineLen, lineAtEnd);
    KeepOfBroken(chars, lineLen, 0, lines);
    KeepOfEnd(t, len + 2 * lines - |t|, if lineAtEnd then EOLN else []);
  }

  lemma EncodedParts(b: seq<byte>, lineLen: nat, lineAtEnd: bool)
    requires b != []
    ensures var chars, len := Chars(b), EncodedLength(|b|);
            var lines := LineBreaks(len, lineLen);
            var t := Broken(chars, lineLen, 0, lines);
            |t| <= len + 2 * lines
            && Encoded(b, lineLen, lineAtEnd) == t + Repeat(PAD, len + 2 * lines - |t|) + if lineAtEnd then EOLN else []
  {
    BrokenLength(Chars(b), lineLen, 0, LineBreaks(EncodedLength(|b|), lineLen));
  }

  /** Padding and a line end add nothing to what is kept. */
  lemma KeepOfEnd(t: seq<byte>, n: nat, end: seq<byte>)
    requires AllReadable(t) && (end == EOLN || end == [])
    ensures var s := t + Repeat(PAD, n) + end; Keep(s) == Keep(t) && AllReadable(s)
  {
    var pad := Repeat(PAD, n);
    KeepNothing(pad);
    KeepNothing(end);
    KeepConcat(t, pad);
    KeepConcat(t + pad, end);
    assert Keep(t) + [] + [] == Keep(t);
  }

  /** Whatever the line length, liberal decoding undoes encoding; this includes the texts whose last line break
      falls inside the padding and that therefore end in more padding than they should. */
  lemma LiberalRoundTrip(b: seq<byte>, lineLen: nat, lineAtEnd: bool)
    requires b != []
    ensures LiberalDecode(Encoded(b, lineLen, lineAtEnd)) == Some(b)
  {
    CharsDecode(b);
    KeepOfEncoded(b, lineLen, lineAtEnd);
  }

  /** Strict decoding accepts exactly the texts the encoder writes without line breaks, up to the amount of
      padding at the end. */
  lemma StrictIsCanonical(s: seq<byte>, b: seq<byte>)
    ensures StrictDecode(s) == Some(b) <==> b != [] && StripPad(s) == Chars(b)
    ensures StrictDecode(s) == Some(b) ==> Encoded(b, 0, false) == Padded(StripPad(s))
  {
    var t := StripPad(s);
    if StrictDecode(s) == Some(b) {
      SymbolsOfCodes(t);
      SextetsOfOctets(Codes(t), b);
      assert Chars(b) == t;
      UnbrokenEncoding(b);
    }
    if b != [] && t == Chars(b) {
      CharsDecode(b);
    }
  }

  /** Encoding without lines is the padded text, and strict decoding gives back its bytes. */
  lemma StrictRoundTrip(b: seq<byte>)
    requires b != []
    ensures StrictDecode(Encoded(b, 0, false)) == Some(b)
  {
    UnbrokenEncoding(b);
    CharsDecode(b);
    var chars := Chars(b);
    AlphabetInverse(0, chars[|chars| - 1]);
    StripPadded(chars, (4 - |chars| % 4) % 4);
  }

  lemma UnbrokenEncoding(b: seq<byte>)
    requires b != []
    ensures Encoded(b, 0, false) == Padded(Chars(b))
  {
    var chars := Chars(b);
    Unbreakable(chars, 0, 0, 0);
    PaddingCount(|b|);
  }

  lemma PaddingCount(n: nat)
    ensures var c := (n * 4 + 2) / 3;
            EncodedLength(n) == c + (4 - c % 4) % 4 && (4 - c % 4) % 4 == if n % 3 == 0 then 0 else 3 - n % 3
  {
    var q := n / 3;
    if n % 3 == 0 {
      assert n == 3 * q && (n * 4 + 2) / 3 == 4 * q;
    } else if n % 3 == 1 {
      assert n == 3 * q + 1 && (n * 4 + 2) / 3 == 4 * q + 2;
    } else {
      assert n == 3 * q + 2 && (n * 4 + 2) / 3 == 4 * q + 3;
    }
  }

  /** Two texts with the same strict reading differ only in the padding at their end. */
  lemma StrictIsInjective(s: seq<byte>, s': seq<byte>)
    requires StrictDecode(s).Some? && StrictDecode(s) == StrictDecode(s')
    ensures StripPad(s) == StripPad(s')
  {
    StrictIsCanonical(s, StrictDecode(s).value);
    StrictIsCanonical(s', StrictDecode(s).value);
  }

  /** Liberal decoding is strict decoding of what is left after deleting the ignored characters, on texts that
      hold nothing else than alphabet and ignored characters. */
  lemma LiberalIsStrictOnKept(s: seq<byte>, b: seq<byte>)
    ensures LiberalDecode(s) == Some(b) <==> AllReadable(s) && StrictDecode(Keep(s)) == Some(b)
  {
    if AllReadable(s) {
      KeepKeepsReadable(s);
      var t := Keep(s);
      if t != [] {
        AlphabetInverse(0, t[|t| - 1]);
      }
      StripPadded(t, 0);
      assert t + Repeat(PAD, 0) == t;
    }
  }

  // ---------- lines

  /** u cut into lines of lineLen characters, the last one possibly shorter. */
  function Lines(u: seq<byte>, lineLen: nat): (lines: seq<seq<byte>>)
    ensures lines != []
    decreases |u|
  {
    if lineLen == 0 || |u| <= lineLen then [u] else [u[..lineLen]] + Lines(u[lineLen..], lineLen)
  }

  function Joined(lines: seq<seq<byte>>): seq<byte>
    requires lines != []
  {
    if |lines| == 1 then lines[0] else lines[0] + EOLN + Joined(lines[1..])
  }

  function Flattened(lines: seq<seq<byte>>): seq<byte> {
    if lines == [] then [] else lines[0] + Flattened(lines[1..])
  }

  lemma {:induction false} LinesAreFull(u: seq<byte>, lineLen: nat)
    requires u != [] && lineLen != 0
    ensures var ls := Lines(u, lineLen);
            && Flattened(ls) == u
            && (forall k :: 0 <= k < |ls| - 1 ==> |ls[k]| == lineLen)
            && 1 <= |ls[|ls| - 1]| <= lineLen
    decreases |u|
  {
    if |u| > lineLen {
      LinesAreFull(u[lineLen..], lineLen);
    }
  }

  /** The encoder's layout is the padded text cut into lines joined by line breaks, if and only if no line break
      would fall between two padding characters. The condition is about lengths only. */
  lemma LayoutIsLinesIff(b: seq<byte>, lineLen: nat)
    requires b != []
    ensures Encoded(b, lineLen, false) == Joined(Lines(Padded(Chars(b)), lineLen)) <==>
            !(|b| % 3 == 1 && lineLen != 0 && (EncodedLength(|b|) - 1) % lineLen == 0)
  {
    PaddingCount(|b|);
    FilledIsLinesIff(Chars(b), (4 - |Chars(b)| % 4) % 4, lineLen);
  }

  lemma SameTail(h: seq<byte>, a: seq<byte>, b: seq<byte>)
    ensures h + a == h + b <==> a == b
  {
    assert (h + a)[|h|..] == a && (h + b)[|h|..] == b;
  }

  /** Both layouts start with the same full line and go on with what is left. */
  lemma FilledFullLine(chars: seq<byte>, len: nat, lineLen: nat, lines: nat)
    requires 0 < lineLen <= |chars| && lineLen < len && |chars| <= len
    requires LineBreaks(len, lineLen) == lines + 1 && LineBreaks(len - lineLen, lineLen) == lines
    ensures Filled(chars, len, lineLen) == chars[..lineLen] + EOLN + Filled(chars[lineLen..], len - lineLen, lineLen)
  {
    var head, tail := chars[..lineLen] + EOLN, Broken(chars[lineLen..], lineLen, 0, lines);
    FirstLine(chars, lineLen, 0, lines + 1);
    BrokenLength(chars[lineLen..], lineLen, 0, lines);
    FillMore(head, tail, len + 2 * (lines + 1));
  }

  lemma FillMore(head: seq<byte>, t: seq<byte>, n: nat)
    requires |head| + |t| <= n
    ensures (head + t) + Repeat(PAD, n - |head + t|) == head + (t + Repeat(PAD, n - |head| - |t|))
  {
  }

  lemma FirstOfLines(u: seq<byte>, lineLen: nat)
    requires 0 < lineLen < |u|
    ensures Joined(Lines(u, lineLen)) == u[..lineLen] + EOLN + Joined(Lines(u[lineLen..], lineLen))
  {
    assert Lines(u, lineLen)[1..] == Lines(u[lineLen..], lineLen);
  }

  lemma {:induction false} FilledIsLinesIff(chars: seq<byte>, p: nat, lineLen: nat)
    requires p <= 2 && |chars| + p > 0
    ensures var len := |chars| + p;
            Filled(chars, len, lineLen) == Joined(Lines(chars + Repeat(PAD, p), lineLen)) <==>
            !(p == 2 && lineLen != 0 && (len - 1) % lineLen == 0)
    decreases |chars|
  {
    var len := |chars| + p;
    var u := chars + Repeat(PAD, p);
    if lineLen == 0 || len <= lineLen {
      if lineLen != 0 {
        OneLine(len, lineLen);
      }
      Unbreakable(chars, lineLen, 0, 0);
    } else if |chars| >= lineLen {
      var rest := chars[lineLen..];
      MoreLines(len, lineLen);
      FilledFullLine(chars, len, lineLen, LineBreaks(len - lineLen, lineLen));
      assert u[..lineLen] == chars[..lineLen] && u[lineLen..] == rest + Repeat(PAD, p);
      FirstOfLines(u, lineLen);
      FilledIsLinesIff(rest, p, lineLen);
      SameTail(chars[..lineLen] + EOLN, Filled(rest, len - lineLen, lineLen),
               Joined(Lines(rest + Repeat(PAD, p), lineLen)));
    } else {
      MoreLines(len, lineLen);
      OneLine(len - lineLen, lineLen);
      Unbreakable(chars, lineLen, 0, LineBreaks(len, lineLen));
      assert Filled(chars, len, lineLen)[lineLen] == PAD;
      assert Joined(Lines(u, lineLen))[lineLen] == CR;
    }
  }

  lemma OneLine(len: nat, lineLen: nat)
    requires 0 < len <= lineLen
    ensures LineBreaks(len, lineLen) == 0
    ensures (len - 1) % lineLen == len - 1
  {
    if len < lineLen {
      Quotient(len, lineLen, 0, len);
    } else {
      Quotient(len, lineLen, 1, 0);
    }
    Quotient(len - 1, lineLen, 0, len - 1);
  }

  lemma MoreLines(len: nat, lineLen: nat)
    requires len > lineLen > 0
    ensures LineBreaks(len, lineLen) == 1 + LineBreaks(len - lineLen, lineLen)
    ensures (len - 1) % lineLen == (len - lineLen - 1) % lineLen
  {
    Quotient(len, lineLen, (len - lineLen) / lineLen + 1, (len - lineLen) % lineLen);
    Quotient(len - 1, lineLen, (len - lineLen - 1) / lineLen + 1, (len - lineLen - 1) % lineLen);
    if (len - lineLen) / lineLen == 0 {
      Quotient(len - lineLen, lineLen, 0, len - lineLen);
    }
  }

  lemma {:induction false} Unbreakable(chars: seq<byte>, lineLen: nat, crtLine: nat, lines: nat)
    requires lines == 0 || crtLine + |chars| < lineLen
    ensures Broken(chars, lineLen, crtLine, lines) == chars
    decreases |chars|
  {
    if chars != [] {
      Unbreakable(chars[1..], lineLen, crtLine + 1, lines);
    }
  }

  lemma {:induction false} FirstLine(chars: seq<byte>, lineLen: nat, crtLine: nat, lines: nat)
    requires lines != 0 && crtLine < lineLen <= crtLine + |chars|
    ensures var n := lineLen - crtLine;
            Broken(chars, lineLen, crtLine, lines) == chars[..n] + EOLN + Broken(chars[n..], lineLen, 0, lines - 1)
    decreases |chars|
  {
    var n := lineLen - crtLine;
    if n > 1 {
      FirstLine(chars[1..], lineLen, crtLine + 1, lines);
      assert chars[1..][n - 1..] == chars[n..];
      assert chars[..n] == [chars[0]] + chars[1..][..n - 1];
    }
  }
}
