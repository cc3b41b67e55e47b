/** When the stale byte at the head of the input ring, which the search for a line looks at too, makes the Intel
    HEX decoder fail. */
module IhexStale {
  import opened Bytes
  import opened IntelHex
  import opened IhexRuns
  import opened IhexSchedules

  predicate KnownKinds(ls: seq<HexLine>)
    requires ValidLines(ls)
  {
    forall i :: 0 <= i < |ls| ==> KindOf(ls[i]) <= START_LINEAR
  }

  /** The eight digits of a header that can be decoded. */
  predicate Header(t: seq<byte>) {
    |t| == 8 && AllHex(t) && HexValue(t[6..]) <= START_LINEAR
  }

  lemma DigitsNoColon(t: seq<byte>)
    requires AllHex(t)
    ensures NoColon(t)
  {
  }

  /** A colon behind that of a line is in the text behind the line's data. */
  lemma ColonBehind(lead: seq<byte>, l: HexLine, rest: seq<byte>, k: nat) returns (m: nat)
    requires ValidLine(l) && |lead| < k < |lead + LineText(l, rest)| && (lead + LineText(l, rest))[k] == COLON
    ensures m == |lead| + 9 + |l.data| <= k && (lead + LineText(l, rest))[m..] == l.tail + rest
  {
    var text, i := lead + LineText(l, rest), |lead| + 1;
    m := i + 8 + |l.data|;
    LineSlices(lead, l, rest);
    DigitsNoColon(l.head);
    DigitsNoColon(l.data);
    forall j | i <= j < m
      ensures text[j] != COLON
    {
      assert text[j] == if j < i + 8 then text[i..i + 8][j - i] else text[i + 8..m][j - i - 8];
    }
  }

  lemma LeadNoColon(lead: seq<byte>, rest: seq<byte>, k: nat)
    requires NoColon(lead) && k < |lead + rest| && (lead + rest)[k] == COLON
    ensures k >= |lead|
  {
    assert forall i :: 0 <= i < |lead| ==> (lead + rest)[i] == lead[i];
  }

  lemma FirstHeader(lead: seq<byte>, l: HexLine, rest: seq<byte>)
    requires ValidLine(l) && KindOf(l) <= START_LINEAR
    ensures |lead| + 9 <= |lead + LineText(l, rest)|
    ensures Header((lead + LineText(l, rest))[|lead| + 1..|lead| + 9])
  {
    LineSlices(lead, l, rest);
  }

  /** A colon in a well-formed text is the start of a line. */
  lemma {:induction false} ColonStartsLine(lead: seq<byte>, ls: seq<HexLine>, k: nat)
    requires NoColon(lead) && ValidLines(ls) && KnownKinds(ls)
    requires k < |lead + Text(ls)| && (lead + Text(ls))[k] == COLON
    ensures k + 9 <= |lead + Text(ls)| && Header((lead + Text(ls))[k + 1..k + 9])
    decreases |ls|
  {
    LeadNoColon(lead, Text(ls), k);
    RestValid(ls);
    if k == |lead| {
      FirstHeader(lead, ls[0], Text(ls[1..]));
    } else {
      var m := ColonBehind(lead, ls[0], Text(ls[1..]), k);
      LaterColon(lead + Text(ls), m, ls[0].tail + Text(ls[1..]), k);
      ColonStartsLine(ls[0].tail, ls[1..], k - m);
      HeaderBehind(lead + Text(ls), m, k);
    }
  }

  lemma LaterColon(text: seq<byte>, m: nat, rest: seq<byte>, k: nat)
    requires m <= k < |text| && text[m..] == rest && text[k] == COLON
    ensures k - m < |rest| && rest[k - m] == COLON
  {
  }

  lemma HeaderBehind(text: seq<byte>, m: nat, k: nat)
    requires m <= k < |text| && k - m + 9 <= |text[m..]| && Header(text[m..][k - m + 1..k - m + 9])
    ensures k + 9 <= |text| && Header(text[k + 1..k + 9])
  {
    assert text[m..][k - m + 1..k - m + 9] == text[k + 1..k + 9];
  }

  /** Scanning digits is never bad. */
  lemma {:induction false} DigitsScan(live: seq<byte>, i: nat, n: nat, acc: nat)
    requires forall j :: i <= j < i + n && j < |live| ==> Nibble(live[j]) >= 0
    ensures ScanHex(live, i, n, acc) != Bad
    decreases n
  {
    if i < |live| && n > 0 {
      DigitsScan(live, i + 1, n - 1, 16 * acc + Nibble(live[i]));
    }
  }

  /** Nor is the beginning of a header. */
  lemma HeaderPeeks(live: seq<byte>, text: seq<byte>)
    requires Prefix(live, text) && |text| >= 8 && Header(text[..8])
    ensures PeekAt(live, 0) != Error
  {
    forall j | 0 <= j < 8 && j < |live|
      ensures Nibble(live[j]) >= 0
    {
      assert live[j] == text[..8][j];
    }
    DigitsScan(live, 0, 2, 0);
    DigitsScan(live, 2, 4, 0);
    DigitsScan(live, 6, 2, 0);
    if ScanHex(live, 6, 2, 0).Value? {
      ScanIsValue(live, 6, 2, 0);
      assert live[6..8] == text[..8][6..];
    }
  }

  /** A colon at the head of a ring that held none before is a colon of the text. */
  lemma ColonOfInput(past: seq<byte>, input: seq<byte>, text: seq<byte>) returns (k: nat)
    requires NoColon(past) && past != [] && Prefix(input, text) && (past + input)[|input|] == COLON
    ensures k < |input| && text[k] == COLON && (past + input)[|input| + 1..] == input[k + 1..]
    ensures Prefix(input[k + 1..], text[k + 1..])
  {
    LeadNoColon(past, input, |input|);
    k := |input| - |past|;
    PrefixDrop(input, text, k + 1);
  }

  lemma ColonNotStale(past: seq<byte>, input: seq<byte>, lead: seq<byte>, ls: seq<HexLine>)
    requires NoColon(past) && NoColon(lead) && ValidLines(ls) && KnownKinds(ls) && Prefix(input, lead + Text(ls))
    requires past != [] && (past + input)[|input|] == COLON
    ensures PeekAt((past + input)[|input| + 1..], 0) != Error
  {
    var text := lead + Text(ls);
    var k := ColonOfInput(past, input, text);
    ColonStartsLine(lead, ls, k);
    assert text[k + 1..][..8] == text[k + 1..k + 9];
    HeaderPeeks(input[k + 1..], text[k + 1..]);
  }

  /** While a well-formed file arrives in a ring that held no colon before, the stale byte never makes a call
      fail: however much has arrived, and whatever the size of the ring. */
  lemma CleanRingNeverStale(past: seq<byte>, input: seq<byte>, lead: seq<byte>, ls: seq<HexLine>)
    requires NoColon(past) && NoColon(lead) && ValidLines(ls) && KnownKinds(ls) && Prefix(input, lead + Text(ls))
    ensures !Stale(past, input)
  {
    if past != [] && (past + input)[|input|] == COLON {
      ColonNotStale(past, input, lead, ls);
    }
  }

  /** A ring of 16 bytes that still holds the beginning of another upload, up to a colon and one digit. */
  function OldText(): seq<byte> {
    [10, 10, 10, 10, 10, 10, 10, 10, 10, 10, 10, 10, 10, 10, COLON, 48]
  }

  /** The first line of a file: a data record with one byte, and a line break. */
  function FirstLine(): HexLine {
    HexLine([48, 49, 48, 48, 48, 48, 48, 48], [65, 65], [48, 48, 10])
  }

  lemma FirstLineValid()
    ensures DecodableLine(FirstLine()) && KindOf(FirstLine()) == DATA && |Text([FirstLine()])| == 14
  {
    HeadValues(FirstLine());
    OneText(FirstLine());
  }

  /** The head is then on the old colon, and the old digit is followed by the colon of the new line. */
  lemma FirstLineStale()
    ensures Stale(OldText(), Text([FirstLine()]))
  {
    var l, past := FirstLine(), OldText();
    var input := Text([l]);
    OneText(l);
    assert input[0] == COLON && |input| == 14;
    var behind := (past + input)[15..];
    assert behind[0] == 48 && behind[1] == COLON;
    assert ScanHex(behind, 1, 1, 0) == Bad;
  }

  lemma NoColonAnywhere(live: seq<byte>)
    requires NoColon(live)
    ensures FindColon(live, 0) == |live|
  {
    ColonOfText(live, live, []);
  }

  /** A ring that still holds an earlier upload can make a call fail: the whole first line has arrived, so that
      the format is probed, and the call that decodes it fails instead of returning its byte. */
  lemma OldFileMakesStale() returns (past: seq<byte>, input: seq<byte>, ls: seq<HexLine>, r: Chunk)
    ensures Decodable(ls) && KnownKinds(ls) && input == Text(ls) && |input| >= 9 && PeekHeader(input).Line?
    ensures Stale(past, input) && |past| == 16 && |input| < 16
    ensures var c := Chunk(input, 0, false, [], 0, 0);
      && r.out == [170] && Decode(c, 2) == Stop(r, false) && InRing(Decode(c, 2), Stale(past, input)) == Fail
  {
    past, ls := OldText(), [FirstLine()];
    input := Text(ls);
    FirstLineValid();
    FirstLineStale();
    FirstLineProbed();
    r := FirstLineFails(input, past);
  }

  lemma FirstLineFails(input: seq<byte>, past: seq<byte>) returns (r: Chunk)
    requires input == Text([FirstLine()]) && Stale(past, input)
    ensures var c := Chunk(input, 0, false, [], 0, 0);
      && r.out == [170] && Decode(c, 2) == Stop(r, false) && InRing(Decode(c, 2), Stale(past, input)) == Fail
  {
    var c := Chunk(input, 0, false, [], 0, 0);
    FirstLineValid();
    assert input == [] + input;
    r := LineEnds(c, [], FirstLine());
    StaleFails(c, r, past, input);
    FirstLineByte(c);
  }

  lemma FirstLineProbed()
    ensures PeekHeader(Text([FirstLine()])).Line?
  {
    FirstLineValid();
    OneText(FirstLine());
    PeekWhole([], FirstLine(), []);
    assert [] + LineText(FirstLine(), []) == LineText(FirstLine(), []);
  }

  lemma StaleFails(c: Chunk, r: Chunk, past: seq<byte>, input: seq<byte>)
    requires Ends(c, 2, r) && NoColon(r.live) && Stale(past, input)
    ensures Decode(c, 2) == Stop(r, false) && InRing(Decode(c, 2), Stale(past, input)) == Fail
  {
    assert Decode(c, 2) == Stop(r, false);
    NoColonAnywhere(r.live);
  }

  lemma FirstLineByte(c: Chunk)
    requires c == Chunk(Text([FirstLine()]), 0, false, [], 0, 0)
    ensures ValidLine(FirstLine()) && AfterLine(c, FirstLine(), []).out == [170]
  {
    FirstLineValid();
    assert HexBytes([65, 65]) == [170];
  }
}
