/** The hexadecimal text accepted by DataBlock::changeHex (engine/DataBlock.cpp:362-453): what it denotes, and
    the grammar that says so independently of how it is parsed. Characters are bytes. */
module HexText {
  import opened Bytes

  /** A single nibble, None on error. */
  function HexDecode(c: byte): Option<byte> {
    if 0x30 <= c <= 0x39 then Some(c - 0x30)
    else if 0x41 <= c <= 0x46 then Some(c - 0x41 + 10)
    else if 0x61 <= c <= 0x66 then Some(c - 0x61 + 10)
    else None
  }

  predicate IsHex(c: byte) {
    HexDecode(c).Some?
  }

  function Octet(c1: byte, c2: byte): byte
    requires IsHex(c1) && IsHex(c2)
  {
    (HexDecode(c1).value << 4) | HexDecode(c2).value
  }

  // ---------- digits

  /** The digits are those of the usual notation, in either case. */
  lemma DigitIs(c: byte, h: nat)
    requires h < 16
    ensures HexDecode(c) == Some(h as byte) <==>
              c as char == "0123456789abcdef"[h] || c as char == "0123456789ABCDEF"[h]
  {
  }

  lemma DigitsAre(c: byte)
    ensures IsHex(c) <==> c as char in "0123456789abcdefABCDEF"
    ensures IsHex(c) ==> HexDecode(c).value < 16
  {
  }

  lemma Nibbles(x: byte, y: byte)
    requires x < 16 && y < 16
    ensures ((x << 4) | y) as nat == 16 * (x as nat) + y as nat
  {
  }

  lemma SameNumber(x: byte, y: byte)
    requires x as nat == y as nat
    ensures x == y
  {
  }

  /** Two digits, the high one first, are the number they denote. */
  lemma OctetIs(c1: byte, c2: byte, h: nat, l: nat)
    requires h < 16 && (c1 as char == "0123456789abcdef"[h] || c1 as char == "0123456789ABCDEF"[h])
    requires l < 16 && (c2 as char == "0123456789abcdef"[l] || c2 as char == "0123456789ABCDEF"[l])
    ensures IsHex(c1) && IsHex(c2) && Octet(c1, c2) as nat == 16 * h + l
  {
    DigitIs(c1, h);
    DigitIs(c2, l);
    OctetOfNibbles(c1, c2, h, l);
  }

  lemma OctetOfNibbles(c1: byte, c2: byte, h: nat, l: nat)
    requires h < 16 && l < 16 && HexDecode(c1) == Some(h as byte) && HexDecode(c2) == Some(l as byte)
    ensures IsHex(c1) && IsHex(c2) && Octet(c1, c2) as nat == 16 * h + l
  {
    NibbleIs(h);
    NibbleIs(l);
    Nibbles(h as byte, l as byte);
  }

  lemma NibbleIs(h: nat)
    requires h < 16
    ensures (h as byte) < 16 && (h as byte) as nat == h
  {
  }

  // ---------- the grammar

  /** Characters taken by one octet and what follows it. */
  function Step(sep: byte): nat {
    if sep == 0 then 2 else 3
  }

  function CoreLength(n: nat, sep: byte): int {
    if sep == 0 then 2 * n else 3 * n - 1
  }

  /** t is hh(sep hh)*, or (hh)+ without separator, and b are the octets it spells. */
  ghost predicate Denotes(t: seq<byte>, sep: byte, b: seq<byte>) {
    && 0 < |b| && |t| == CoreLength(|b|, sep)
    && forall k :: 0 <= k < |b| ==> SpellsAt(t, sep, b, k)
  }

  /** Octet k is spelled at its place and, unless it is the last one, a separator follows. */
  predicate SpellsAt(t: seq<byte>, sep: byte, b: seq<byte>, k: nat)
    requires k < |b| && |t| == CoreLength(|b|, sep)
  {
    var i := Step(sep) * k;
    && IsHex(t[i]) && IsHex(t[i + 1]) && b[k] == Octet(t[i], t[i + 1])
    && (sep != 0 && k < |b| - 1 ==> t[i + 2] == sep)
  }

  /** text is an optional separator, octets b, an optional separator; there are none without a separator. */
  ghost predicate Grammatical(text: seq<byte>, sep: byte, b: seq<byte>) {
    exists lead: bool, trail: bool :: Framed(text, sep, lead, trail, b)
  }

  ghost predicate Framed(text: seq<byte>, sep: byte, lead: bool, trail: bool, b: seq<byte>) {
    if sep == 0 then !lead && !trail && Denotes(text, sep, b)
    else
      var l, r := if lead then 1 else 0, if trail then 1 else 0;
      && l + r <= |text|
      && (lead ==> text[0] == sep) && (trail ==> text[|text| - 1] == sep)
      && Denotes(text[l..|text| - r], sep, b)
  }

  // ---------- what changeHex computes

  datatype Outcome = Spelled(octets: seq<byte>) | Empty | InvalidLength | InvalidFormat

  predicate Lead(text: seq<byte>, sep: byte) {
    sep != 0 && text != [] && text[0] == sep
  }

  predicate Trail(text: seq<byte>, sep: byte) {
    sep != 0 && |text| > LeadLength(text, sep) && text[|text| - 1] == sep
  }

  function LeadLength(text: seq<byte>, sep: byte): nat {
    if Lead(text, sep) then 1 else 0
  }

  function Strip(text: seq<byte>, sep: byte): seq<byte> {
    text[LeadLength(text, sep)..if Trail(text, sep) then |text| - 1 else |text|]
  }

  predicate PairAt(t: seq<byte>, sep: byte, n: nat, k: nat)
    requires k < n && |t| == CoreLength(n, sep)
  {
    var i := Step(sep) * k;
    IsHex(t[i]) && IsHex(t[i + 1]) && (sep != 0 && k < n - 1 ==> t[i + 2] == sep)
  }

  function Octets(t: seq<byte>, sep: byte, n: nat): Outcome
    requires |t| == CoreLength(n, sep)
  {
    if forall k :: 0 <= k < n ==> PairAt(t, sep, n, k) then
      Spelled(seq(n, k requires 0 <= k < n =>
        assert PairAt(t, sep, n, k); Octet(t[Step(sep) * k], t[Step(sep) * k + 1])))
    else InvalidFormat
  }

  /** The outcome when the separator is known (0 for none). */
  function Parse(text: seq<byte>, sep: byte): Outcome {
    if text == [] then Empty
    else if sep == 0 then
      if |text| % 2 != 0 then InvalidLength else Octets(text, sep, |text| / 2)
    else
      var t := Strip(text, sep);
      if t == [] then Empty
      else if |t| % 3 != 2 then InvalidLength
      else Octets(t, sep, (|t| + 1) / 3)
  }

  /** The separators tried when guessing, in this order: blank : ; . , - / | */
  const CANDIDATES: seq<byte> := [0x20, 0x3a, 0x3b, 0x2e, 0x2c, 0x2d, 0x2f, 0x7c]

  /** Candidate c is taken when it stands right after the first octet, or the text is one octet long. */
  predicate Suggests(text: seq<byte>, c: byte)
    requires |text| > 2
  {
    var offs := if text[0] == c then 3 else 2;
    |text| == offs || text[offs] == c
  }

  function GuessFrom(text: seq<byte>, candidates: seq<byte>): byte
    requires |text| > 2
  {
    if candidates == [] then 0
    else if Suggests(text, candidates[0]) then candidates[0]
    else GuessFrom(text, candidates[1..])
  }

  function UsedSep(text: seq<byte>, sep: byte, guessSep: bool): byte {
    if sep == 0 && guessSep && |text| > 2 then GuessFrom(text, CANDIDATES) else sep
  }

  // ---------- accepted texts

  lemma OctetsDenote(t: seq<byte>, sep: byte, n: nat, b: seq<byte>)
    requires |t| == CoreLength(n, sep) && n > 0
    ensures Octets(t, sep, n) == Spelled(b) <==> Denotes(t, sep, b)
  {
    if Octets(t, sep, n) == Spelled(b) {
      forall k | 0 <= k < |b| ensures SpellsAt(t, sep, b, k) {
        assert PairAt(t, sep, n, k);
      }
    }
    if Denotes(t, sep, b) {
      forall k | 0 <= k < n ensures PairAt(t, sep, n, k) && b[k] == Octet(t[Step(sep) * k], t[Step(sep) * k + 1]) {
        assert SpellsAt(t, sep, b, k);
      }
      assert Octets(t, sep, n).octets == b;
    }
  }

  lemma Thirds(len: nat, n: nat)
    ensures len % 3 == 2 ==> 3 * ((len + 1) / 3) - 1 == len && (len + 1) / 3 > 0
    ensures len == 3 * n - 1 ==> len % 3 == 2
  {
  }

  lemma ParseUnseparated(text: seq<byte>, n: nat)
    requires n > 0 && |text| == CoreLength(n, 0)
    ensures Parse(text, 0) == Octets(text, 0, n)
  {
    assert |text| / 2 == n;
  }

  lemma ParseStripped(text: seq<byte>, sep: byte, t: seq<byte>, n: nat)
    requires text != [] && sep != 0 && t == Strip(text, sep) && n > 0 && |t| == CoreLength(n, sep)
    ensures Parse(text, sep) == Octets(t, sep, n)
  {
    ThirdIs(|t|, n);
  }

  lemma ThirdIs(len: nat, n: nat)
    requires len == 3 * n - 1
    ensures len % 3 == 2 && (len + 1) / 3 == n
  {
  }

  /** The parser always reads the text with the frame it sees first. */
  lemma ParseReadsItsFrame(text: seq<byte>, sep: byte, b: seq<byte>)
    ensures Parse(text, sep) == Spelled(b) <==> Framed(text, sep, Lead(text, sep), Trail(text, sep), b)
  {
    if sep == 0 {
      UnseparatedIsDenoted(text, b);
    } else {
      StripIsFramed(text, sep, b);
      CoreIsDenoted(Strip(text, sep), sep, b);
    }
  }

  lemma UnseparatedIsDenoted(text: seq<byte>, b: seq<byte>)
    ensures Parse(text, 0) == Spelled(b) <==> Denotes(text, 0, b)
  {
    if |text| % 2 == 0 && text != [] {
      OctetsDenote(text, 0, |text| / 2, b);
    }
  }

  lemma StripIsFramed(text: seq<byte>, sep: byte, b: seq<byte>)
    requires sep != 0
    ensures Framed(text, sep, Lead(text, sep), Trail(text, sep), b) <==> Denotes(Strip(text, sep), sep, b)
  {
    var l, r := if Lead(text, sep) then 1 else 0, if Trail(text, sep) then 1 else 0;
    assert Strip(text, sep) == text[l..|text| - r];
  }

  lemma CoreIsDenoted(t: seq<byte>, sep: byte, b: seq<byte>)
    requires sep != 0
    ensures |t| % 3 == 2 ==> CoreLength((|t| + 1) / 3, sep) == |t|
    ensures |t| % 3 == 2 && Octets(t, sep, (|t| + 1) / 3) == Spelled(b) <==> Denotes(t, sep, b)
  {
    Thirds(|t|, |b|);
    if |t| % 3 == 2 {
      OctetsDenote(t, sep, (|t| + 1) / 3, b);
    }
  }

  /** A core starts and ends with a hex digit, so the frame can be read off the text. */
  lemma FramesAreForced(text: seq<byte>, sep: byte, lead: bool, trail: bool, b: seq<byte>)
    requires !IsHex(sep) && Framed(text, sep, lead, trail, b)
    ensures lead == Lead(text, sep) && trail == Trail(text, sep)
  {
    if sep != 0 {
      var l, r := if lead then 1 else 0, if trail then 1 else 0;
      var t := text[l..|text| - r];
      assert SpellsAt(t, sep, b, 0) && SpellsAt(t, sep, b, |b| - 1);
      assert t[0] == text[l] && t[|t| - 1] == text[|text| - r - 1];
    }
  }

  /** With a separator that is not a hex digit (or none), exactly the grammatical texts are accepted, and they
      give exactly the octets they spell. */
  lemma AcceptsTheGrammar(text: seq<byte>, sep: byte, b: seq<byte>)
    requires !IsHex(sep)
    ensures Parse(text, sep) == Spelled(b) <==> Grammatical(text, sep, b)
  {
    ParseReadsItsFrame(text, sep, b);
    if Grammatical(text, sep, b) {
      var lead, trail :| Framed(text, sep, lead, trail, b);
      FramesAreForced(text, sep, lead, trail, b);
    }
  }

  /** The grammar is followed for every text if and only if the separator is not a hex digit. */
  lemma SeparatorMustNotBeHex(sep: byte)
    ensures (forall text, b :: Parse(text, sep) == Spelled(b) <==> Grammatical(text, sep, b)) <==> !IsHex(sep)
  {
    if IsHex(sep) {
      HexSeparatorFails(sep);
    } else {
      forall text, b ensures Parse(text, sep) == Spelled(b) <==> Grammatical(text, sep, b) {
        AcceptsTheGrammar(text, sep, b);
      }
    }
  }

  /** Two digits that are also the separator: an octet by the grammar, two separators to the parser. */
  lemma HexSeparatorFails(sep: byte)
    requires IsHex(sep)
    ensures Grammatical([sep, sep], sep, [Octet(sep, sep)]) && Parse([sep, sep], sep) == Empty
  {
    var text, b := [sep, sep], [Octet(sep, sep)];
    assert Strip(text, sep) == [];
    assert text[0..2] == text;
    assert SpellsAt(text, sep, b, 0);
    assert Framed(text, sep, false, false, b);
  }

  // ---------- guessing

  lemma GuessIsTheOnlySuggestion(text: seq<byte>, candidates: seq<byte>, c: byte)
    requires |text| > 2
    requires forall c' | c' in candidates :: Suggests(text, c') <==> c' == c
    ensures GuessFrom(text, candidates) == if c in candidates then c else 0
  {
  }

  lemma CandidatesAreNotDigits(c: byte)
    requires c in CANDIDATES
    ensures c != 0 && forall d | IsHex(d) :: d != c
  {
  }

  /** Where the first octet starts at l, candidate c' is suggested exactly when it is the separator. */
  lemma SuggestedByPlace(text: seq<byte>, c: byte, l: nat, c': byte)
    requires |text| > 2 && l + 2 <= |text| && c' != 0
    requires if c == 0 then l == 0 && text[2] != c'
             else l <= 1 && (l == 1 ==> text[0] == c) && (l + 2 < |text| ==> text[l + 2] == c)
    requires forall k :: l <= k < l + 2 ==> text[k] != c && text[k] != c'
    ensures Suggests(text, c') <==> c' == c
  {
  }

  lemma FirstOctet(t: seq<byte>, sep: byte, b: seq<byte>)
    requires Denotes(t, sep, b)
    ensures |t| >= 2 && IsHex(t[0]) && IsHex(t[1])
    ensures |t| > 2 ==> if sep == 0 then IsHex(t[2]) else t[2] == sep
  {
    assert SpellsAt(t, sep, b, 0);
    if |b| > 1 {
      assert SpellsAt(t, sep, b, 1);
    }
  }

  /** In a text spelled with separator c, no other candidate stands where a separator is looked for. */
  lemma OnlySeparatorSuggests(text: seq<byte>, c: byte, b: seq<byte>, c': byte)
    requires |text| > 2 && !IsHex(c) && c' in CANDIDATES
    requires Framed(text, c, Lead(text, c), Trail(text, c), b)
    ensures Suggests(text, c') <==> c' == c
  {
    var l, r := if Lead(text, c) then 1 else 0, if Trail(text, c) then 1 else 0;
    var t := text[l..|text| - r];
    assert c == 0 ==> t == text;
    FirstOctet(t, c, b);
    assert t[0] == text[l] && t[1] == text[l + 1] && (|t| > 2 ==> t[2] == text[l + 2]);
    CandidatesAreNotDigits(c');
    SuggestedByPlace(text, c, l, c');
  }

  lemma FoundSeparator(text: seq<byte>, c: byte, b: seq<byte>)
    requires c == 0 || c in CANDIDATES
    requires |text| > 2 && Parse(text, c) == Spelled(b)
    ensures UsedSep(text, 0, true) == c
  {
    ParseReadsItsFrame(text, c, b);
    forall c' | c' in CANDIDATES ensures Suggests(text, c') <==> c' == c {
      OnlySeparatorSuggests(text, c, b, c');
    }
    GuessIsTheOnlySuggestion(text, CANDIDATES, c);
  }

  lemma GuessFindsSeparator(text: seq<byte>, c: byte, b: seq<byte>)
    requires c == 0 || c in CANDIDATES
    requires Parse(text, c) == Spelled(b)
    ensures Parse(text, UsedSep(text, 0, true)) == Spelled(b)
  {
    if |text| > 2 {
      FoundSeparator(text, c, b);
    } else {
      ParseReadsItsFrame(text, c, b);
      var l, r := if Lead(text, c) then 1 else 0, if Trail(text, c) then 1 else 0;
      assert text[l..|text| - r] == text;
      assert SpellsAt(text, c, b, 0);
      assert Denotes(text, 0, b);
      ParseReadsItsFrame(text, 0, b);
    }
  }

  /** The texts written with separator c: those of the grammar, and those without octets. */
  ghost predicate WrittenWith(text: seq<byte>, c: byte) {
    text == [] || text == [c] || text == [c, c] || exists b :: Grammatical(text, c, b)
  }

  /** For each of the eight candidates and every text written with it, guessing gives what being told the separator
      gives, if and only if the text is not that separator alone, once or twice. */
  lemma GuessingAgrees(text: seq<byte>, c: byte)
    requires c in CANDIDATES && WrittenWith(text, c)
    ensures Parse(text, UsedSep(text, 0, true)) == Parse(text, c) <==> text != [c] && text != [c, c]
  {
    assert Strip([c], c) == [] && Strip([c, c], c) == [];
    if text == [c, c] {
      assert !PairAt(text, 0, 1, 0);
    } else if text != [] && text != [c] {
      var b :| Grammatical(text, c, b);
      AcceptsTheGrammar(text, c, b);
      GuessFindsSeparator(text, c, b);
    }
  }

  /** The length is that of octets with their separators. */
  predicate LengthFits(text: seq<byte>, sep: byte) {
    if sep == 0 then |text| % 2 == 0 else |Strip(text, sep)| % 3 == 2
  }

  lemma ParseByLength(text: seq<byte>, sep: byte)
    requires |text| > 2
    ensures var p := Parse(text, sep);
            if LengthFits(text, sep) then p.Spelled? || p.InvalidFormat? else p == InvalidLength
  {
  }

  /** Texts refused by their length alone, and those taken as empty: one separator at each end does not count. */
  lemma RefusedByLength(text: seq<byte>, sep: byte)
    ensures var l := if sep != 0 && text != [] && text[0] == sep then 1 else 0;
            var r := if sep != 0 && |text| > l && text[|text| - 1] == sep then 1 else 0;
            var n := |text| - l - r;
            && (Parse(text, sep) == Empty <==> n == 0)
            && (Parse(text, sep) == InvalidLength <==> n > 0 && if sep == 0 then n % 2 != 0 else n % 3 != 2)
  {
  }

  lemma ParseOfOneOrTwo(text: seq<byte>, c: byte)
    requires 0 < |text| <= 2 && c != 0 && !IsHex(c)
    ensures Parse(text, 0) == Parse(text, c) <==> c !in text
  {
    if c !in text {
      assert Strip(text, c) == text;
      if |text| == 2 {
        assert PairAt(text, 0, 1, 0) <==> PairAt(text, c, 1, 0);
        assert Octets(text, 0, 1) == Octets(text, c, 1);
      }
    } else if |text| == 2 {
      assert !PairAt(text, 0, 1, 0);
      assert |Strip(text, c)| < 2;
    }
  }

  /** For any text and any of the candidates: guessing gives the octets or the very error that being told the
      separator gives if and only if the text is too short to guess from and free of the separator, or it is the
      separator guessed, or the length is wrong either way, or right either way and the text still not one that the
      guessed separator allows. */
  lemma GuessedCodeIff(text: seq<byte>, c: byte)
    requires c in CANDIDATES
    ensures var g := UsedSep(text, 0, true);
            Parse(text, g) == Parse(text, c) <==>
              if |text| <= 2 then c !in text
              else g == c || (LengthFits(text, c) == LengthFits(text, g)
                              && (LengthFits(text, g) ==> forall b :: !Grammatical(text, g, b)))
  {
    CandidatesAreNotDigits(c);
    var g := UsedSep(text, 0, true);
    if |text| <= 2 {
      if text != [] {
        ParseOfOneOrTwo(text, c);
      }
    } else if g != c {
      GuessIsACandidate(text, CANDIDATES);
      ParseByLength(text, c);
      ParseByLength(text, g);
      if Parse(text, c).Spelled? {
        FoundSeparator(text, c, Parse(text, c).octets);
        assert false;
      }
      GuessedIsGrammatical(text, g);
    }
  }

  lemma GuessedIsGrammatical(text: seq<byte>, g: byte)
    requires g == 0 || g in CANDIDATES
    ensures Parse(text, g).Spelled? <==> exists b :: Grammatical(text, g, b)
  {
    if g != 0 {
      CandidatesAreNotDigits(g);
    }
    forall b ensures Parse(text, g) == Spelled(b) <==> Grammatical(text, g, b) {
      AcceptsTheGrammar(text, g, b);
    }
  }

  /** A text is accepted with a guessed separator exactly when it is accepted without separator or with one of
      the candidates, and then with the same octets. */
  lemma GuessingAcceptsAll(text: seq<byte>, b: seq<byte>)
    ensures Parse(text, UsedSep(text, 0, true)) == Spelled(b) <==>
            Parse(text, 0) == Spelled(b) || exists c :: c in CANDIDATES && Parse(text, c) == Spelled(b)
  {
    if Parse(text, 0) == Spelled(b) {
      GuessFindsSeparator(text, 0, b);
    }
    if c :| c in CANDIDATES && Parse(text, c) == Spelled(b) {
      GuessFindsSeparator(text, c, b);
    }
    if |text| > 2 {
      GuessIsACandidate(text, CANDIDATES);
    }
  }

  lemma GuessIsACandidate(text: seq<byte>, candidates: seq<byte>)
    requires |text| > 2
    ensures GuessFrom(text, candidates) == 0 || GuessFrom(text, candidates) in candidates
  {
  }

  // ---------- round trip

  /** The candidates, in the order in which they are tried. */
  lemma CandidatesAre(i: nat)
    requires i < 8
    ensures |CANDIDATES| == 8 && CANDIDATES[i] as char == " :;.,-/|"[i]
  {
  }

  /** A byte is spelled by two digits, the high one first. */
  lemma SpelledByte(c1: byte, c2: byte, b: byte)
    requires var h := b as nat / 16; c1 as char == "0123456789abcdef"[h] || c1 as char == "0123456789ABCDEF"[h]
    requires var l := b as nat % 16; c2 as char == "0123456789abcdef"[l] || c2 as char == "0123456789ABCDEF"[l]
    ensures IsHex(c1) && IsHex(c2) && Octet(c1, c2) == b
  {
    var h, l := b as nat / 16, b as nat % 16;
    OctetIs(c1, c2, h, l);
    SameNumber(Octet(c1, c2), b);
  }

  /** Octet k of b stands at its place in the text, as two digits of either case, with the separator behind it. */
  predicate WrittenAt(text: seq<byte>, sep: byte, b: seq<byte>, k: nat)
    requires k < |b| && |text| == if sep == 0 then 2 * |b| else 3 * |b| - 1
  {
    var i, h, l := if sep == 0 then 2 * k else 3 * k, b[k] as nat / 16, b[k] as nat % 16;
    && (text[i] as char == "0123456789abcdef"[h] || text[i] as char == "0123456789ABCDEF"[h])
    && (text[i + 1] as char == "0123456789abcdef"[l] || text[i + 1] as char == "0123456789ABCDEF"[l])
    && (sep != 0 && k < |b| - 1 ==> text[i + 2] == sep)
  }

  /** Any bytes written with a separator that is no digit, or with none, are read back, and they are without telling
      the separator when it is a candidate. */
  lemma WrittenIsRead(text: seq<byte>, sep: byte, b: seq<byte>)
    requires b != [] && sep as char !in "0123456789abcdefABCDEF"
    requires |text| == if sep == 0 then 2 * |b| else 3 * |b| - 1
    requires forall k :: 0 <= k < |b| ==> WrittenAt(text, sep, b, k)
    ensures Parse(text, sep) == Spelled(b)
    ensures sep == 0 || sep as char in " :;.,-/|" ==> Parse(text, UsedSep(text, 0, true)) == Spelled(b)
  {
    DigitsAre(sep);
    WrittenDenotes(text, sep, b);
    assert text[0..|text|] == text;
    assert Framed(text, sep, false, false, b);
    AcceptsTheGrammar(text, sep, b);
    if sep == 0 || sep as char in " :;.,-/|" {
      if sep != 0 {
        CandidateFound(sep);
      }
      GuessFindsSeparator(text, sep, b);
    }
  }

  lemma WrittenDenotes(text: seq<byte>, sep: byte, b: seq<byte>)
    requires b != [] && |text| == if sep == 0 then 2 * |b| else 3 * |b| - 1
    requires forall k :: 0 <= k < |b| ==> WrittenAt(text, sep, b, k)
    ensures Denotes(text, sep, b)
  {
    forall k | 0 <= k < |b| ensures SpellsAt(text, sep, b, k) {
      WrittenSpells(text, sep, b, k);
    }
  }

  lemma WrittenSpells(text: seq<byte>, sep: byte, b: seq<byte>, k: nat)
    requires k < |b| && |text| == (if sep == 0 then 2 * |b| else 3 * |b| - 1) && WrittenAt(text, sep, b, k)
    ensures SpellsAt(text, sep, b, k)
  {
    var i := if sep == 0 then 2 * k else 3 * k;
    SpelledByte(text[i], text[i + 1], b[k]);
  }

  lemma CandidateFound(c: byte)
    requires c as char in " :;.,-/|"
    ensures c in CANDIDATES
  {
    var i :| 0 <= i < 8 && c as char == " :;.,-/|"[i];
    CandidatesAre(i);
    SameNumber(c, CANDIDATES[i]);
  }
}
