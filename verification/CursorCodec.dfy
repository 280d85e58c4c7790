/** Cursors on the wire (storage/storage.go): decimal milliseconds and ID in unpadded base64url,
    sections 3.2 and 5 of RFC 4648. */
module CursorCodec {
  import opened Wrappers
  import opened Timeline
  import opened Queries
  import opened Arithmetic
  import opened Decimal
  import opened Paging
  import opened Strings

  // ---- base64url -------------------------------------------------------------

  /** A six-bit digit. */
  function Letter(d: nat): char
    requires d < 64
  {
    if d < 26 then 'A' + d as char
    else if d < 52 then 'a' + (d - 26) as char
    else if d < 62 then '0' + (d - 52) as char
    else if d == 62 then '-'
    else '_'
  }

  function DigitOf(c: char): Option<nat> {
    if 'A' <= c <= 'Z' then Some(c as int - 'A' as int)
    else if 'a' <= c <= 'z' then Some(c as int - 'a' as int + 26)
    else if '0' <= c <= '9' then Some(c as int - '0' as int + 52)
    else if c == '-' then Some(62)
    else if c == '_' then Some(63)
    else None
  }

  lemma DigitOfLetter(d: nat)
    requires d < 64
    ensures DigitOf(Letter(d)) == Some(d) && Letter(d) != '\n' && Letter(d) != '\r'
  {}

  type Byte = b: nat | b < 256

  /** The low six bits of a number, and above them those that follow, most significant first. */
  function Letters(n: nat, count: nat): string {
    if count == 0 then "" else Letters(n / 64, count - 1) + [Letter(n % 64)]
  }

  /** Three bytes make four letters; one or two left over make two or three. */
  function Encode(bytes: seq<Byte>): string {
    if bytes == [] then ""
    else if |bytes| == 1 then Letters(Number(bytes, 1) * 16, 2)
    else if |bytes| == 2 then Letters(Number(bytes, 2) * 4, 3)
    else Letters(Number(bytes, 3), 4) + Encode(bytes[3..])
  }

  /** The first bytes as one big-endian number. */
  function Number(bytes: seq<Byte>, count: nat): nat
    requires count <= |bytes|
  {
    if count == 0 then 0
    else
      var low: nat := bytes[count - 1];
      Number(bytes, count - 1) * 256 + low
  }

  /** Line breaks are skipped wherever they are. */
  function WithoutBreaks(s: string): string {
    if s == "" then ""
    else (if s[0] == '\n' || s[0] == '\r' then "" else [s[0]]) + WithoutBreaks(s[1..])
  }

  predicate IsDigits(s: string) {
    forall i | 0 <= i < |s| :: DigitOf(s[i]).Some?
  }

  /** The number that some letters spell. */
  function Spelled(s: string): nat
    requires IsDigits(s)
  {
    if s == "" then 0 else Spelled(s[..|s| - 1]) * 64 + DigitOf(s[|s| - 1]).value
  }

  /** The low bytes of a number, most significant first. */
  function Octets(n: nat, count: nat): seq<Byte> {
    if count == 0 then []
    else
      var low: Byte := n % 256;
      Octets(n / 256, count - 1) + [low]
  }

  /** Unused bits of the last letter are ignored; a single letter left over is an error. */
  function Groups(s: string): Option<seq<Byte>>
    requires IsDigits(s)
  {
    if s == "" then Some([])
    else if |s| == 1 then None
    else if |s| == 2 then Some(Octets(Spelled(s) / 16, 1))
    else if |s| == 3 then Some(Octets(Spelled(s) / 4, 2))
    else
      match Groups(s[4..])
      case None => None
      case Some(rest) => Some(Octets(Spelled(s[..4]), 3) + rest)
  }

  function Decode(s: string): Option<seq<Byte>> {
    var letters := WithoutBreaks(s);
    if IsDigits(letters) then Groups(letters) else None
  }

  function Power(base: nat, count: nat): nat {
    if count == 0 then 1 else base * Power(base, count - 1)
  }

  lemma {:induction false} LettersSpell(n: nat, count: nat)
    requires n < Power(64, count)
    ensures |Letters(n, count)| == count && IsDigits(Letters(n, count)) && Spelled(Letters(n, count)) == n
  {
    if count > 0 {
      LettersSpell(n / 64, count - 1);
      DigitOfLetter(n % 64);
      var s := Letters(n, count);
      assert s[..count - 1] == Letters(n / 64, count - 1);
    }
  }

  lemma {:induction false} NumberOctets(bytes: seq<Byte>, count: nat)
    requires count <= |bytes|
    ensures Number(bytes, count) < Power(256, count) && Octets(Number(bytes, count), count) == bytes[..count]
  {
    if count > 0 {
      NumberOctets(bytes, count - 1);
      assert bytes[..count] == bytes[..count - 1] + [bytes[count - 1]];
    }
  }

  lemma Powers()
    ensures Power(64, 2) == 4096 && Power(64, 3) == 262144 && Power(64, 4) == 16777216
    ensures Power(256, 1) == 256 && Power(256, 2) == 65536 && Power(256, 3) == 16777216
  {
    assert Power(64, 1) == 64;
    assert Power(64, 2) == 64 * Power(64, 1);
    assert Power(64, 3) == 64 * Power(64, 2);
    assert Power(256, 2) == 256 * Power(256, 1);
  }

  lemma {:induction false} GroupsEncode(bytes: seq<Byte>)
    ensures IsDigits(Encode(bytes)) && Groups(Encode(bytes)) == Some(bytes)
  {
    hide Letters;
    hide Spelled;
    hide Octets;
    hide Number;
    hide Power;
    Powers();
    if bytes == [] {
    } else if |bytes| == 1 {
      NumberOctets(bytes, 1);
      LettersSpell(Number(bytes, 1) * 16, 2);
      assert bytes[..1] == bytes;
    } else if |bytes| == 2 {
      NumberOctets(bytes, 2);
      LettersSpell(Number(bytes, 2) * 4, 3);
      assert bytes[..2] == bytes;
    } else {
      NumberOctets(bytes, 3);
      LettersSpell(Number(bytes, 3), 4);
      GroupsEncode(bytes[3..]);
      var s, first := Encode(bytes), Letters(Number(bytes, 3), 4);
      assert s[..4] == first && s[4..] == Encode(bytes[3..]);
      assert bytes == bytes[..3] + bytes[3..];
    }
  }

  lemma {:induction false} NoBreaks(s: string)
    requires IsDigits(s)
    ensures WithoutBreaks(s) == s
  {
    if s != "" {
      assert forall i | 0 <= i < |s| - 1 :: s[1..][i] == s[i + 1];
      NoBreaks(s[1..]);
    }
  }

  /** Decoding undoes encoding, whatever the bytes. */
  lemma DecodeEncode(bytes: seq<Byte>)
    ensures Decode(Encode(bytes)) == Some(bytes)
  {
    GroupsEncode(bytes);
    NoBreaks(Encode(bytes));
  }

  /** The letters of the alphabet of section 5 of RFC 4648. */
  lemma Alphabet(c: char)
    ensures DigitOf(c).Some? <==> 'A' <= c <= 'Z' || 'a' <= c <= 'z' || '0' <= c <= '9' || c == '-' || c == '_'
  {}

  /** Some of the test vectors of section 10 of RFC 4648, without padding, and the last two letters. */
  lemma TestVectors()
    ensures Encode([]) == "" && Encode([102]) == "Zg"
    ensures Encode([102, 111]) == "Zm8"
    ensures Encode([251, 255]) == "-_8"
  {
    VectorOne();
    VectorTwo();
    VectorLast();
  }

  lemma VectorOne()
    ensures Encode([102]) == "Zg"
  {
    assert Number([102], 1) == 102;
    assert Letters(1632, 2) == Letters(25, 1) + "g";
    assert Letters(25, 1) == "" + "Z";
  }

  lemma VectorTwo()
    ensures Encode([102, 111]) == "Zm8"
  {
    assert Number([102, 111], 1) == 102;
    assert Number([102, 111], 2) == 26223;
    assert Letters(104892, 3) == Letters(1638, 2) + "8";
    assert Letters(1638, 2) == Letters(25, 1) + "m";
    assert Letters(25, 1) == "" + "Z";
  }

  lemma VectorLast()
    ensures Encode([251, 255]) == "-_8"
  {
    assert Number([251, 255], 1) == 251;
    assert Number([251, 255], 2) == 64511;
    assert Letters(258044, 3) == Letters(4031, 2) + "8";
    assert Letters(4031, 2) == Letters(62, 1) + "_";
    assert Letters(62, 1) == "" + "-";
  }

  lemma {:induction false} GroupsExactly(s: string)
    requires IsDigits(s)
    ensures Groups(s).Some? <==> |s| % 4 != 1
  {
    if |s| >= 4 {
      GroupsExactly(s[4..]);
    }
  }

  /** A text decodes exactly when, line breaks aside, it is letters of the alphabet and not one more
      than a whole number of groups of four. */
  lemma DecodesExactly(s: string)
    ensures Decode(s).Some? <==>
              && (forall i | 0 <= i < |WithoutBreaks(s)| :: DigitOf(WithoutBreaks(s)[i]).Some?)
              && |WithoutBreaks(s)| % 4 != 1
  {
    if IsDigits(WithoutBreaks(s)) {
      GroupsExactly(WithoutBreaks(s));
    }
  }

  lemma {:induction false} BreaksConcat(a: string, b: string)
    ensures WithoutBreaks(a + b) == WithoutBreaks(a) + WithoutBreaks(b)
  {
    if a == "" {
      assert a + b == b;
    } else {
      assert (a + b)[1..] == a[1..] + b;
      BreaksConcat(a[1..], b);
    }
  }

  /** A line break anywhere makes no difference. */
  lemma BreaksIgnored(a: string, b: string)
    ensures Decode(a + ['\n'] + b) == Decode(a + b) && Decode(a + ['\r'] + b) == Decode(a + b)
  {
    BreakIgnored(a, b, '\n');
    BreakIgnored(a, b, '\r');
  }

  lemma BreakIgnored(a: string, b: string, c: char)
    requires c == '\n' || c == '\r'
    ensures WithoutBreaks(a + [c] + b) == WithoutBreaks(a + b)
  {
    BreaksConcat(a, b);
    BreaksConcat(a + [c], b);
    BreaksConcat(a, [c]);
    assert WithoutBreaks([c]) == "" + WithoutBreaks([c][1..]) && [c][1..] == "";
    assert WithoutBreaks(a) + "" == WithoutBreaks(a);
  }

  // ---- cursors ---------------------------------------------------------------

  function UnixMilli(t: int): int {
    (t - UNIX_EPOCH) / MILLISECOND
  }

  function FromUnixMilli(ms: int): int {
    ms * MILLISECOND + UNIX_EPOCH
  }

  /** The bytes of a text all of whose characters are single bytes. */
  function Bytes(s: string): seq<Byte>
    requires forall i | 0 <= i < |s| :: s[i] < 128 as char
  {
    seq(|s|, i requires 0 <= i < |s| => s[i] as nat)
  }

  function Text(bytes: seq<Byte>): string {
    seq(|bytes|, i requires 0 <= i < |bytes| => bytes[i] as char)
  }

  lemma FormatIsAscii(n: int)
    ensures forall i | 0 <= i < |Format(n)| :: Format(n)[i] < 128 as char && Format(n)[i] != ':'
  {
    hide Format;
    FormatHasNoColon(n);
  }

  function CursorText(c: Cursor): string {
    Format(UnixMilli(c.time)) + ":" + Format(c.id)
  }

  lemma CursorTextAscii(c: Cursor)
    ensures forall i | 0 <= i < |CursorText(c)| :: CursorText(c)[i] < 128 as char
  {
    hide Format;
    FormatIsAscii(UnixMilli(c.time));
    FormatIsAscii(c.id);
  }

  /** A cursor in a URL; the zero cursor is the empty text. */
  function Print(c: Cursor): string {
    if c.time == 0 then ""
    else
      CursorTextAscii(c);
      Encode(Bytes(CursorText(c)))
  }

  function Parse(s: string): Option<Cursor> {
    if s == "" then Some(START)
    else
      match Decode(s)
      case None => None
      case Some(bytes) =>
        var parts := SplitAt(Text(bytes), ':');
        if |parts| != 2 then None
        else
          match (Decimal.Parse(parts[0]), Decimal.Parse(parts[1]))
          case (Some(ms), Some(id)) => Some(Cursor(FromUnixMilli(ms), id))
          case _ => None
  }

  /** What a text other than the empty one stands for: it decodes to two numbers around a colon, the
      milliseconds since the epoch and the ID. */
  ghost predicate StandsFor(s: string, c: Cursor, ms: string, id: string) {
    && Decode(s).Some? && Text(Decode(s).value) == ms + ":" + id && ':' !in ms && ':' !in id
    && Spells(ms, (c.time - UNIX_EPOCH) / MILLISECOND) && (c.time - UNIX_EPOCH) % MILLISECOND == 0
    && FitsInt64((c.time - UNIX_EPOCH) / MILLISECOND) && Spells(id, c.id) && FitsInt64(c.id)
  }

  lemma MillisOf(t: int, ms: int)
    ensures FromUnixMilli(ms) == t <==> (t - UNIX_EPOCH) / MILLISECOND == ms && (t - UNIX_EPOCH) % MILLISECOND == 0
  {}

  /** A text is read as a cursor exactly when it stands for it, or is empty and the cursor the start. */
  lemma ParseExactly(s: string, c: Cursor)
    ensures Parse(s) == Some(c) <==> if s == "" then c == START else exists ms, id :: StandsFor(s, c, ms, id)
  {
    if s != "" {
      if Parse(s) == Some(c) {
        ParsedStands(s, c);
      }
      if ms, id :| StandsFor(s, c, ms, id) {
        StandingParses(s, c, ms, id);
      }
    }
  }

  lemma StandingParses(s: string, c: Cursor, ms: string, id: string)
    requires s != "" && StandsFor(s, c, ms, id)
    ensures Parse(s) == Some(c)
  {
    hide Decode;
    hide SplitAt;
    hide Spells;
    hide Decimal.Parse;
    var n := (c.time - UNIX_EPOCH) / MILLISECOND;
    assert ms + ":" + id == ms + [':'] + id;
    SplitOnce(ms, id, ':');
    Decimal.ParseExactly(ms, n);
    Decimal.ParseExactly(id, c.id);
    MillisOf(c.time, n);
  }

  lemma ParsedStands(s: string, c: Cursor)
    requires s != "" && Parse(s) == Some(c)
    ensures exists ms, id :: StandsFor(s, c, ms, id)
  {
    hide Decode;
    hide SplitAt;
    hide Spells;
    hide Decimal.Parse;
    var text := Text(Decode(s).value);
    var parts := SplitAt(text, ':');
    var ms, id := Decimal.Parse(parts[0]).value, Decimal.Parse(parts[1]).value;
    SplitTwo(text, ':');
    Decimal.ParseExactly(parts[0], ms);
    Decimal.ParseExactly(parts[1], id);
    MillisOf(c.time, ms);
    assert StandsFor(s, c, parts[0], parts[1]);
  }

  lemma TextOfBytes(s: string)
    requires forall i | 0 <= i < |s| :: s[i] < 128 as char
    ensures Text(Bytes(s)) == s
  {}

  lemma EncodeNotEmpty(bytes: seq<Byte>)
    requires bytes != []
    ensures Encode(bytes) != ""
  {}

  predicate FitsInt64(n: int) {
    MIN_INT64 <= n <= MAX_INT64
  }

  lemma PrintDecodes(c: Cursor)
    requires c.time != 0
    ensures Print(c) != "" && Decode(Print(c)).Some? && Text(Decode(Print(c)).value) == CursorText(c)
  {
    hide Format;
    hide Encode;
    hide Decode;
    CursorTextAscii(c);
    var text := CursorText(c);
    assert text != "";
    hide CursorText;
    DecodeEncode(Bytes(text));
    EncodeNotEmpty(Bytes(text));
    TextOfBytes(text);
  }

  lemma ParseReads(s: string, ms: int, id: int)
    requires s != "" && Decode(s).Some? && Text(Decode(s).value) == Format(ms) + ":" + Format(id)
    requires FitsInt64(ms) && FitsInt64(id)
    ensures Parse(s) == Some(Cursor(FromUnixMilli(ms), id))
  {
    hide Format;
    hide Decode;
    hide Text;
    hide SplitAt;
    hide Decimal.Parse;
    FormatIsAscii(ms);
    FormatIsAscii(id);
    SplitOnce(Format(ms), Format(id), ':');
    ParseFormat(ms);
    ParseFormat(id);
  }

  /** What comes back: the zero cursor for a zero time, otherwise the time cut down to the
      millisecond and the same ID. */
  lemma ParsePrint(c: Cursor)
    requires FitsInt64(UnixMilli(c.time)) && FitsInt64(c.id)
    ensures Parse(Print(c)) == Some(if c.time == 0 then START
                                    else Cursor(c.time - (c.time - UNIX_EPOCH) % MILLISECOND, c.id))
  {
    if c.time != 0 {
      PrintDecodes(c);
      ParseReads(Print(c), UnixMilli(c.time), c.id);
      hide Parse;
      hide Print;
      assert c.time - UNIX_EPOCH == UnixMilli(c.time) * MILLISECOND + (c.time - UNIX_EPOCH) % MILLISECOND;
    }
  }

  predicate WholeMillisecond(t: int) {
    t % MILLISECOND == 0
  }

  /** A cursor survives the URL exactly when its time is a whole millisecond (and a cursor at the
      zero time is the zero cursor). */
  lemma RoundTripExactly(c: Cursor)
    requires FitsInt64(UnixMilli(c.time)) && FitsInt64(c.id)
    ensures Parse(Print(c)) == Some(c) <==> WholeMillisecond(c.time) && (c.time == 0 ==> c.id == 0)
  {
    hide Print;
    hide Parse;
    ParsePrint(c);
  }

  /** An event past a cursor that is not past the cursor that comes back: it is in the millisecond
      of a cursor that was cut, and not at its beginning with a smaller ID. */
  predicate LeftBehind(c: Cursor, e: Event) {
    && Past(c, e)
    && UnixMilli(e.time) == UnixMilli(c.time)
    && !WholeMillisecond(c.time)
    && !(WholeMillisecond(e.time) && e.id < c.id)
  }

  /** What pagination over the wire loses: the cursor that comes back passes over exactly the events
      left behind, and never goes back over others. A cursor within the first millisecond of all
      comes back as the start. */
  lemma CutCursorSkips(c: Cursor, e: Event)
    requires FitsInt64(UnixMilli(c.time)) && FitsInt64(c.id) && !(0 <= c.time < MILLISECOND)
    ensures var d := Parse(Print(c));
            && d.Some?
            && (Past(d.value, e) ==> Past(c, e))
            && (Past(c, e) && !Past(d.value, e) <==> LeftBehind(c, e))
  {
    hide Print;
    hide Parse;
    ParsePrint(c);
    CutTime(c.time);
    var start := c.time - (c.time - UNIX_EPOCH) % MILLISECOND;
    SameMilli(e.time, c.time, start);
    hide UnixMilli;
    hide WholeMillisecond;
  }

  lemma CutTime(t: int)
    ensures var start := t - (t - UNIX_EPOCH) % MILLISECOND;
            && start <= t < start + MILLISECOND && WholeMillisecond(start) && UnixMilli(start) == UnixMilli(t)
            && (start == t <==> WholeMillisecond(t)) && (start == 0 <==> 0 <= t < MILLISECOND)
  {}

  lemma SameMilli(t: int, u: int, start: int)
    requires start <= u < start + MILLISECOND && WholeMillisecond(start) && UnixMilli(start) == UnixMilli(u)
    ensures UnixMilli(t) == UnixMilli(u) <==> start <= t < start + MILLISECOND
    ensures start <= t < start + MILLISECOND ==> (WholeMillisecond(t) <==> t == start)
  {}

  lemma FirstMillisecondStartsOver(c: Cursor, e: Event)
    requires 0 < c.time < MILLISECOND && FitsInt64(c.id)
    ensures Parse(Print(c)) == Some(Cursor(0, c.id)) && Past(Parse(Print(c)).value, e)
  {
    hide Print;
    hide Parse;
    ParsePrint(c);
  }

  // ---- pagination over the wire ------------------------------------------------

  /** The cursor that a client gets back to the server. */
  function Wire(c: Cursor): Cursor {
    match Parse(Print(c))
    case Some(d) => d
    case None => START
  }

  /** Following the printed cursors over successive states of a store. */
  function WireWalk(states: seq<seq<Event>>, c: Cursor, limit: int): seq<Page>
    requires limit > 0
  {
    if states == [] then []
    else
      var page := PageOf(states[0], c, limit);
      [page] + if page.hasMore then WireWalk(states[1..], Wire(page.next), limit) else []
  }

  predicate Printable(e: Event) {
    FitsInt64(UnixMilli(e.time)) && FitsInt64(e.id) && !(0 <= e.time < MILLISECOND)
  }

  ghost predicate AllPrintable(states: seq<seq<Event>>) {
    forall i, e | 0 <= i < |states| && e in states[i] :: Printable(e)
  }

  /** An event left behind between two pages. */
  ghost predicate Skipped(pages: seq<Page>, e: Event) {
    exists p | p in pages && p.hasMore :: LeftBehind(p.next, e)
  }

  lemma PageCursor(all: seq<Event>, c: Cursor, limit: int)
    requires limit > 0 && NewestFirst(all) && PageOf(all, c, limit).hasMore
    ensures var p := PageOf(all, c, limit); exists e | e in all :: p.next == CursorOf(e)
  {
    RemainingKeeps(all, c);
    assert PageOf(all, c, limit).events[limit - 1] in all;
  }

  /** Pagination over the wire, whatever happens to the store between pages: strictly newest first,
      so nothing is returned twice, and once a page is the last, of everything that was in all the
      states read exactly what was left behind between two pages has not been returned. */
  lemma {:induction false} WireWalkStable(states: seq<seq<Event>>, c: Cursor, limit: int)
    requires limit > 0 && Ordered(states) && AllPrintable(states)
    ensures var pages := WireWalk(states, c, limit);
            && |pages| <= |states|
            && NewestFirst(Returned(pages))
            && (forall e | e in Returned(pages) || Skipped(pages, e) :: Past(c, e))
            && (Finished(pages) ==>
                  forall e | Past(c, e) && (forall i | 0 <= i < |pages| :: e in states[i]) ::
                    e in Returned(pages) <==> !Skipped(pages, e))
  {
    hide Wire;
    hide PageOf;
    hide LeftBehind;
    if states != [] {
      var page := PageOf(states[0], c, limit);
      var pages := WireWalk(states, c, limit);
      WirePage(states[0], c, limit);
      if page.hasMore {
        var later := WireWalk(states[1..], Wire(page.next), limit);
        assert pages == [page] + later && pages[1..] == later;
        WireWalkStable(states[1..], Wire(page.next), limit);
        NewestFirstConcat(page.events, Returned(later));
        WireComplete(states, c, page, later);
      } else {
        assert pages == [page] && Returned(pages) == page.events + Returned([]);
      }
    }
  }

  /** One page and its printed cursor. */
  lemma WirePage(all: seq<Event>, c: Cursor, limit: int)
    requires limit > 0 && NewestFirst(all) && forall e | e in all :: Printable(e)
    ensures var p := PageOf(all, c, limit);
            && NewestFirst(p.events)
            && (forall e | e in p.events :: Past(c, e))
            && (!p.hasMore ==> forall e | e in all && Past(c, e) :: e in p.events)
            && (p.hasMore ==> WireCut(all, c, p))
  {
    hide Print;
    hide Parse;
    var p := PageOf(all, c, limit);
    if p.hasMore {
      PageCursor(all, c, limit);
      hide LeftBehind;
      forall e: Event
        ensures Past(Wire(p.next), e) ==> Past(p.next, e)
        ensures Past(p.next, e) && !Past(Wire(p.next), e) <==> LeftBehind(p.next, e)
      {
        CutCursorSkips(p.next, e);
      }
    }
    PageSplits(all, c, limit);
    hide PageOf;
    hide Wire;
    hide LeftBehind;
  }

  /** The events that a list has past a cursor are those of the page, those left behind, and those
      past the cursor that comes back, which are older than the page. */
  ghost predicate WireCut(all: seq<Event>, c: Cursor, p: Page) {
    && (forall e | Past(Wire(p.next), e) ::
          Past(c, e) && !LeftBehind(p.next, e) && forall a | a in p.events :: Newer(a, e))
    && (forall e | LeftBehind(p.next, e) :: Past(c, e) && !Past(Wire(p.next), e) && e !in p.events)
    && (forall e | e in all && Past(c, e) && !Past(Wire(p.next), e) :: e in p.events || LeftBehind(p.next, e))
  }

  lemma SkippedBetween(page: Page, later: seq<Page>, e: Event)
    requires page.hasMore
    ensures Skipped([page] + later, e) <==> LeftBehind(page.next, e) || Skipped(later, e)
  {
    hide LeftBehind;
    var pages := [page] + later;
    assert page in pages;
    if Skipped(later, e) {
      var p :| p in later && p.hasMore && LeftBehind(p.next, e);
      assert p in pages;
    }
  }

  lemma WireComplete(states: seq<seq<Event>>, c: Cursor, page: Page, later: seq<Page>)
    requires states != [] && |later| < |states| && page.hasMore && WireCut(states[0], c, page)
    requires forall e | e in Returned(later) || Skipped(later, e) :: Past(Wire(page.next), e)
    requires Finished(later) ==>
               forall e | Past(Wire(page.next), e) && (forall i | 0 <= i < |later| :: e in states[1..][i]) ::
                 e in Returned(later) <==> !Skipped(later, e)
    ensures var pages := [page] + later;
            && (forall e | Skipped(pages, e) :: Past(c, e))
            && (Finished(pages) ==>
                  forall e | Past(c, e) && (forall i | 0 <= i < |pages| :: e in states[i]) ::
                    e in Returned(pages) <==> !Skipped(pages, e))
  {
    hide Wire;
    hide Past;
    hide Newer;
    hide LeftBehind;
    hide Skipped;
    var pages := [page] + later;
    assert pages[1..] == later;
    forall e: Event
      ensures Skipped(pages, e) <==> LeftBehind(page.next, e) || Skipped(later, e)
    {
      SkippedBetween(page, later, e);
    }
    if Finished(pages) {
      forall e | Past(c, e) && (forall i | 0 <= i < |pages| :: e in states[i])
        ensures e in Returned(pages) <==> !Skipped(pages, e)
      {
        assert e in states[0];
        if Past(Wire(page.next), e) {
          assert forall i | 0 <= i < |later| :: states[1..][i] == states[i + 1];
          assert later != [] && Finished(later);
          NotNewerThanItself(e);
        }
      }
    }
  }

  lemma NotNewerThanItself(e: Event)
    ensures !Newer(e, e)
  {}

  /** Every cursor handed out is that of an event of some state. */
  lemma {:induction false} WireCursors(states: seq<seq<Event>>, c: Cursor, limit: int, p: Page)
    requires limit > 0 && Ordered(states) && p in WireWalk(states, c, limit) && p.hasMore
    ensures exists i, e | 0 <= i < |states| && e in states[i] :: p.next == CursorOf(e)
  {
    hide Wire;
    var page := PageOf(states[0], c, limit);
    if p == page {
      PageCursor(states[0], c, limit);
    } else {
      WireCursors(states[1..], Wire(page.next), limit, p);
      var i, e :| 0 <= i < |states[1..]| && e in states[1..][i] && p.next == CursorOf(e);
      assert e in states[i + 1];
    }
  }

  /** At whole milliseconds nothing is skipped. */
  lemma WholeMillisecondsNotSkipped(states: seq<seq<Event>>, c: Cursor, limit: int, e: Event)
    requires limit > 0 && Ordered(states)
    requires forall i, x | 0 <= i < |states| && x in states[i] :: WholeMillisecond(x.time)
    ensures !Skipped(WireWalk(states, c, limit), e)
  {
    var pages := WireWalk(states, c, limit);
    if Skipped(pages, e) {
      var p :| p in pages && p.hasMore && LeftBehind(p.next, e);
      WireCursors(states, c, limit, p);
    }
  }

  /** The events a store may hold at all are never skipped, whatever it holds when and wherever
      pages end, exactly when none of them leaves another behind. */
  lemma NothingSkippedExactly(held: Event -> bool)
    ensures (forall states, c, limit, e | limit > 0 && Ordered(states) && AllHeld(states, held) && held(e) ::
               !Skipped(WireWalk(states, c, limit), e))
       <==> forall a, b | held(a) && held(b) :: !LeftBehind(CursorOf(a), b)
  {
    hide LeftBehind;
    hide WireWalk;
    hide Skipped;
    if a, b :| held(a) && held(b) && LeftBehind(CursorOf(a), b) {
      PairSkipped(a, b);
      assert AllHeld([[a, b]], held);
    } else {
      forall states, c, limit, e | limit > 0 && Ordered(states) && AllHeld(states, held) && held(e)
        ensures !Skipped(WireWalk(states, c, limit), e)
      {
        HeldNotSkipped(states, c, limit, e, held);
      }
    }
  }

  ghost predicate AllHeld(states: seq<seq<Event>>, held: Event -> bool) {
    forall i, e | 0 <= i < |states| && e in states[i] :: held(e)
  }

  lemma HeldNotSkipped(states: seq<seq<Event>>, c: Cursor, limit: int, e: Event, held: Event -> bool)
    requires limit > 0 && Ordered(states) && AllHeld(states, held)
    requires forall a | held(a) :: !LeftBehind(CursorOf(a), e)
    ensures !Skipped(WireWalk(states, c, limit), e)
  {
    hide LeftBehind;
    hide WireWalk;
    var pages := WireWalk(states, c, limit);
    if Skipped(pages, e) {
      var p :| p in pages && p.hasMore && LeftBehind(p.next, e);
      WireCursors(states, c, limit, p);
    }
  }

  lemma PairSkipped(a: Event, b: Event)
    requires LeftBehind(CursorOf(a), b)
    ensures Ordered([[a, b]]) && Skipped(WireWalk([[a, b]], START, 1), b)
  {
    var s := [a, b];
    assert Newer(a, b);
    RemainingSuffix(s, START, 0);
    assert s[0..] == s;
    hide LeftBehind;
    var page := PageOf(s, START, 1);
    assert [s][0] == s && page in WireWalk([s], START, 1);
  }

  /** Two events at one time, as one comparison makes them: when a page ends between them, the
      second is never returned. */
  lemma BatchCutLosesRest(a: Event, b: Event)
    requires Printable(a) && Printable(b) && a.time == b.time && !WholeMillisecond(a.time) && a.id > b.id
    ensures var pages := WireWalk([[a, b], [a, b]], START, 1);
            Finished(pages) && Returned(pages) == [a]
  {
    hide Wire;
    var s := [a, b];
    RemainingSuffix(s, START, 0);
    assert s[0..] == s && s[..1] == [a];
    var page := PageOf(s, START, 1);
    assert page == Page([a], CursorOf(a), true);
    LeftOf(a, b);
    var d := Wire(CursorOf(a));
    RemainingSuffix(s, d, 2);
    assert s[2..] == [] && PageOf(s, d, 1) == Page([], START, false);
    assert [s, s][1..] == [s] && [s][1..] == [];
    assert WireWalk([s], d, 1) == [Page([], START, false)];
    assert WireWalk([s, s], START, 1) == [page] + [Page([], START, false)];
    assert Returned([Page([], START, false)]) == [];
  }

  lemma LeftOf(a: Event, b: Event)
    requires Printable(a) && a.time == b.time && !WholeMillisecond(a.time) && a.id > b.id
    ensures !Past(Wire(CursorOf(a)), a) && !Past(Wire(CursorOf(a)), b)
  {
    hide Parse;
    hide Print;
    CutCursorSkips(CursorOf(a), a);
    CutCursorSkips(CursorOf(a), b);
  }

  // ---- a store that does not change --------------------------------------------

  /** Each page takes its limit off what is left. */
  lemma LessIsLeft(s: seq<Event>, c: Cursor, limit: int, i: nat) returns (j: nat)
    requires limit > 0 && NewestFirst(s) && forall e | e in s :: Printable(e)
    requires i <= |s| && Remaining(s, c) == s[i..] && PageOf(s, c, limit).hasMore
    ensures i < j <= |s| && Remaining(s, Wire(PageOf(s, c, limit).next)) == s[j..]
  {
    hide Wire;
    hide Printable;
    hide LeftBehind;
    var page := PageOf(s, c, limit);
    var d := Wire(page.next);
    j := FirstPast(s, d);
    RemainingSuffix(s, d, j);
    WirePage(s, c, limit);
    assert page.events[0] == s[i];
    hide PageOf;
    hide Remaining;
    if j <= i {
      hide NewestFirst;
      OlderStaysPast(s, d, j, i);
      NotNewerThanItself(s[i]);
    }
  }

  lemma WalkOverCopies(s: seq<Event>, n: nat, c: Cursor, limit: int)
    requires limit > 0 && n > 0
    ensures var page := PageOf(s, c, limit);
            WireWalk(Copies(s, n), c, limit)
            == [page] + if page.hasMore then WireWalk(Copies(s, n - 1), Wire(page.next), limit) else []
  {
    hide Wire;
    hide PageOf;
    assert Copies(s, n)[0] == s && Copies(s, n)[1..] == Copies(s, n - 1);
  }

  lemma {:induction false} CopiesFinish(s: seq<Event>, n: nat, c: Cursor, limit: int, i: nat)
    requires limit > 0 && NewestFirst(s) && forall e | e in s :: Printable(e)
    requires i <= |s| && Remaining(s, c) == s[i..] && n > |s| - i
    ensures Finished(WireWalk(Copies(s, n), c, limit))
  {
    hide Wire;
    hide Printable;
    hide NewestFirst;
    hide PageOf;
    hide Remaining;
    hide Copies;
    var page := PageOf(s, c, limit);
    WalkOverCopies(s, n, c, limit);
    hide WireWalk;
    if page.hasMore {
      var j := LessIsLeft(s, c, limit, i);
      CopiesFinish(s, n - 1, Wire(page.next), limit, j);
    }
  }

  lemma OlderStaysPast(s: seq<Event>, c: Cursor, i: nat, j: nat)
    requires NewestFirst(s) && i <= j < |s| && Past(c, s[i])
    ensures Past(c, s[j])
  {}

  /** No event leaves the next one behind. */
  ghost predicate NoneLeftBehind(s: seq<Event>) {
    forall i | 0 <= i < |s| - 1 ::
      WholeMillisecond(s[i].time)
      || UnixMilli(s[i + 1].time) < UnixMilli(s[i].time)
      || (WholeMillisecond(s[i + 1].time) && s[i + 1].id < s[i].id)
  }

  lemma NoneLeftBehindNext(s: seq<Event>, i: nat)
    requires NewestFirst(s) && i < |s| - 1
    ensures LeftBehind(CursorOf(s[i]), s[i + 1]) <==>
              !(WholeMillisecond(s[i].time)
                || UnixMilli(s[i + 1].time) < UnixMilli(s[i].time)
                || (WholeMillisecond(s[i + 1].time) && s[i + 1].id < s[i].id))
  {
    assert Newer(s[i], s[i + 1]);
    DivisionBounds(s[i].time - UNIX_EPOCH, MILLISECOND);
    DivisionBounds(s[i + 1].time - UNIX_EPOCH, MILLISECOND);
  }

  /** An event that leaves a later one behind leaves the next one behind. */
  lemma LeavesNextBehind(s: seq<Event>, i: nat, j: nat)
    requires NewestFirst(s) && i < j < |s| && Printable(s[i]) && LeftBehind(CursorOf(s[i]), s[j])
    ensures LeftBehind(CursorOf(s[i]), s[i + 1])
  {
    hide Parse;
    hide Print;
    hide LeftBehind;
    var c := CursorOf(s[i]);
    CutCursorSkips(c, s[j]);
    CutCursorSkips(c, s[i + 1]);
    assert Newer(s[i], s[i + 1]);
    if Past(Wire(c), s[i + 1]) {
      OlderStaysPast(s, Wire(c), i + 1, j);
    }
  }

  lemma NoneSkipped(s: seq<Event>, n: nat, limit: int, e: Event)
    requires limit > 0 && NewestFirst(s) && (forall x | x in s :: Printable(x)) && NoneLeftBehind(s) && e in s
    ensures !Skipped(WireWalk(Copies(s, n), START, limit), e)
  {
    hide LeftBehind;
    hide WireWalk;
    hide Printable;
    hide NoneLeftBehind;
    CopiesAre(s, n);
    var pages := WireWalk(Copies(s, n), START, limit);
    if Skipped(pages, e) {
      var p :| p in pages && p.hasMore && LeftBehind(p.next, e);
      WireCursors(Copies(s, n), START, limit, p);
      var i :| 0 <= i < |s| && p.next == CursorOf(s[i]);
      var j :| 0 <= j < |s| && s[j] == e;
      LeftBehindIsOlder(s, i, j);
      LeavesNextBehind(s, i, j);
      NoneLeftBehindAt(s, i);
    }
  }

  lemma NoneLeftBehindAt(s: seq<Event>, i: nat)
    requires NoneLeftBehind(s) && i < |s| - 1 && NewestFirst(s)
    ensures !LeftBehind(CursorOf(s[i]), s[i + 1])
  {
    NoneLeftBehindNext(s, i);
  }

  lemma LeftBehindIsOlder(s: seq<Event>, i: nat, j: nat)
    requires NewestFirst(s) && i < |s| && j < |s| && Printable(s[i]) && LeftBehind(CursorOf(s[i]), s[j])
    ensures i < j
  {}

  lemma NextSkipped(s: seq<Event>, n: nat, i: nat)
    requires NewestFirst(s) && i < |s| - 1 && n > 0 && LeftBehind(CursorOf(s[i]), s[i + 1])
    ensures Skipped(WireWalk(Copies(s, n), START, i + 1), s[i + 1])
  {
    hide LeftBehind;
    hide Wire;
    RemainingSuffix(s, START, 0);
    assert s[0..] == s;
    var page := PageOf(s, START, i + 1);
    assert page.hasMore && page.next == CursorOf(s[i]);
    assert Copies(s, n)[0] == s && page in WireWalk(Copies(s, n), START, i + 1);
  }

  lemma ReturnedUnlessSkipped(s: seq<Event>, limit: int, n: nat, e: Event)
    requires NewestFirst(s) && (forall x | x in s :: Printable(x)) && limit > 0 && n > |s| && e in s
    ensures var pages := WireWalk(Copies(s, n), START, limit); e in Returned(pages) <==> !Skipped(pages, e)
  {
    hide WireWalk;
    hide Returned;
    hide Printable;
    hide Skipped;
    hide Copies;
    CopiesAre(s, n);
    RemainingSuffix(s, START, 0);
    assert Past(START, e);
    hide Remaining;
    hide Past;
    CopiesFinish(s, n, START, limit, 0);
    WireWalkStable(Copies(s, n), START, limit);
  }

  lemma NextNotReturned(s: seq<Event>, i: nat)
    requires NewestFirst(s) && (forall e | e in s :: Printable(e))
    requires i < |s| - 1 && LeftBehind(CursorOf(s[i]), s[i + 1])
    ensures s[i + 1] !in Returned(WireWalk(Copies(s, |s| + 1), START, i + 1))
  {
    hide WireWalk;
    hide Returned;
    hide Printable;
    hide Skipped;
    hide LeftBehind;
    hide Copies;
    hide NewestFirst;
    assert s[i + 1] in s;
    NextSkipped(s, |s| + 1, i);
    ReturnedUnlessSkipped(s, i + 1, |s| + 1, s[i + 1]);
  }

  /** Of a store that does not change, pages of every size fetched with printed cursors return
      everything exactly when no event leaves the next one behind: its time is a whole millisecond,
      the next one is of an earlier millisecond, or that one is at the beginning of the same
      millisecond with a smaller ID. */
  lemma WirePagesCompleteExactly(s: seq<Event>)
    requires NewestFirst(s) && forall e | e in s :: Printable(e)
    ensures (forall limit, n: nat, e | limit > 0 && n > |s| && e in s ::
               e in Returned(WireWalk(Copies(s, n), START, limit)))
       <==> NoneLeftBehind(s)
  {
    hide WireWalk;
    hide Returned;
    hide Printable;
    hide Skipped;
    hide LeftBehind;
    hide Copies;
    hide NewestFirst;
    hide UnixMilli;
    if NoneLeftBehind(s) {
      hide NoneLeftBehind;
      forall limit, n: nat, e | limit > 0 && n > |s| && e in s
        ensures e in Returned(WireWalk(Copies(s, n), START, limit))
      {
        NoneSkipped(s, n, limit, e);
        ReturnedUnlessSkipped(s, limit, n, e);
      }
    } else {
      var i :| 0 <= i < |s| - 1 && !(WholeMillisecond(s[i].time)
                                     || UnixMilli(s[i + 1].time) < UnixMilli(s[i].time)
                                     || (WholeMillisecond(s[i + 1].time) && s[i + 1].id < s[i].id));
      NoneLeftBehindNext(s, i);
      NextNotReturned(s, i);
      assert s[i + 1] in s;
    }
  }
}
