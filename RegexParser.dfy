/**
 * The regex-based roster extractor (parse_roster_no_bs4.py). The page is
 * split on the list-card opening marker, the text before the first marker
 * is dropped, and each remaining piece yields one record read with the
 * patterns below. There is no header-block pass.
 */
module RegexParser {
  import opened Text
  import opened Wrappers
  import opened Record
  import opened Patterns

  // The patterns, by shape and literal prefix.
  const JerseySpan := SpanCapture("sidearm-roster-player-jersey")
  const JerseyNum := DigitsCapture("roster_jerseynum \">")
  const FirstNamePat := Capture("class=\"sidearm-roster-player-first-name\">", false)
  const LastNamePat := Capture("class=\"sidearm-roster-player-last-name\">", false)
  const PositionPat := Capture("sidearm-roster-player-position-short\">", true)
  const HeightPat := Capture("sidearm-roster-player-height\">", false)
  const WeightPat := Capture("sidearm-roster-player-weight\">", false)
  const AcademicYearPat := Capture("sidearm-roster-player-academic-year\">", false)
  const HometownPat := Capture("sidearm-roster-player-hometown\">", false)
  const HighSchoolPat := Capture("sidearm-roster-player-highschool\">", false)
  const PreviousSchoolPat := Capture("sidearm-roster-player-previous-school\">", false)
  const PlayerHighSchoolPat := CaptureDd("player_highschool \"\">")

  /** The card number: the jersey span pattern, and the `roster_jerseynum`
      digits only when that yields nothing. */
  function CardNumber(block: string): (r: string)
    ensures Extract(block, JerseySpan, "") != "" ==> r == Extract(block, JerseySpan, "")
    ensures Extract(block, JerseySpan, "") == "" ==> r == Extract(block, JerseyNum, "")
  {
    var primary := Extract(block, JerseySpan, "");
    if primary != "" then primary else Extract(block, JerseyNum, "")
  }

  /** A number never holds `<` or a newline, and one taken from the fallback
      consists of digits only. */
  lemma CardNumberChars(block: string)
    ensures '<' !in CardNumber(block) && '\n' !in CardNumber(block)
    ensures Extract(block, JerseySpan, "") == "" ==>
      forall m | 0 <= m < |CardNumber(block)| :: IsDigit(CardNumber(block)[m])
  {
    ExtractSpanNoLtNl(block, JerseySpan);
    ExtractDigits(block, JerseyNum);
  }

  /** The high school: the first non-empty of the highschool, previous-school
      and `player_highschool` patterns. */
  function CardHighSchool(block: string): string {
    FirstNonEmpty([
      Extract(block, HighSchoolPat, ""),
      Extract(block, PreviousSchoolPat, ""),
      Extract(block, PlayerHighSchoolPat, "")])
  }

  /** The record of one item. */
  function CardRecord(block: string): Player {
    Player(
      CardNumber(block),
      Extract(block, FirstNamePat, ""),
      Extract(block, LastNamePat, ""),
      Extract(block, PositionPat, ""),
      NormalizeWeight(Extract(block, WeightPat, "")),
      Extract(block, HeightPat, ""),
      Extract(block, HometownPat, ""),
      Extract(block, AcademicYearPat, ""),
      CardHighSchool(block))
  }

  /** The text fields of a record hold no `<` and have no whitespace at
      either end. */
  lemma CardFieldsClean(block: string)
    ensures var p := CardRecord(block);
      && '<' !in p.firstName && '<' !in p.lastName && '<' !in p.position
      && '<' !in p.height && '<' !in p.hometown && '<' !in p.academicYear
      && '<' !in p.weight && '<' !in p.highSchool
      && IsStripped(p.firstName) && IsStripped(p.lastName) && IsStripped(p.position)
      && IsStripped(p.height) && IsStripped(p.hometown) && IsStripped(p.academicYear)
      && IsStripped(p.weight) && IsStripped(p.highSchool)
  {
    ExtractNoLt(block, FirstNamePat, "");
    ExtractNoLt(block, LastNamePat, "");
    ExtractNoLt(block, PositionPat, "");
    ExtractNoLt(block, HeightPat, "");
    ExtractNoLt(block, HometownPat, "");
    ExtractNoLt(block, AcademicYearPat, "");
    ExtractNoLt(block, WeightPat, "");
    ExtractNoLt(block, HighSchoolPat, "");
    ExtractNoLt(block, PreviousSchoolPat, "");
    ExtractNoLt(block, PlayerHighSchoolPat, "");
    HighSchoolClean(block);
  }

  lemma HighSchoolClean(block: string)
    requires '<' !in Extract(block, HighSchoolPat, "") && IsStripped(Extract(block, HighSchoolPat, ""))
    requires '<' !in Extract(block, PreviousSchoolPat, "") && IsStripped(Extract(block, PreviousSchoolPat, ""))
    requires '<' !in Extract(block, PlayerHighSchoolPat, "") && IsStripped(Extract(block, PlayerHighSchoolPat, ""))
    ensures '<' !in CardHighSchool(block) && IsStripped(CardHighSchool(block))
  {
    FirstOfThree(Extract(block, HighSchoolPat, ""), Extract(block, PreviousSchoolPat, ""),
      Extract(block, PlayerHighSchoolPat, ""));
  }

  /** One pass of the item loop: each field extracted, with the number and
      the high school reassigned step by step while still empty. */
  method ParseCard(block: string) returns (p: Player)
    ensures p == CardRecord(block)
  {
    var number := Extract(block, JerseySpan, "");
    if number == "" {
      number := Extract(block, JerseyNum, "");
    }
    var first := Extract(block, FirstNamePat, "");
    var last := Extract(block, LastNamePat, "");
    var position := Extract(block, PositionPat, "");
    var height := Extract(block, HeightPat, "");
    var weight := Extract(block, WeightPat, "");
    var cls := Extract(block, AcademicYearPat, "");
    var hometown := Extract(block, HometownPat, "");
    var highschool := FindHighSchool(block);
    weight := NormalizeWeight(weight);
    p := Player(number, first, last, position, weight, height, hometown, cls, highschool);
  }

  /** The high-school steps: empty only when all three patterns are. */
  method FindHighSchool(block: string) returns (highschool: string)
    ensures highschool == CardHighSchool(block)
    ensures highschool == "" <==>
      Extract(block, HighSchoolPat, "") == "" &&
      Extract(block, PreviousSchoolPat, "") == "" &&
      Extract(block, PlayerHighSchoolPat, "") == ""
  {
    FirstOfThree(Extract(block, HighSchoolPat, ""), Extract(block, PreviousSchoolPat, ""),
      Extract(block, PlayerHighSchoolPat, ""));
    highschool := Extract(block, HighSchoolPat, "");
    if highschool == "" {
      highschool := Extract(block, PreviousSchoolPat, "");
    }
    if highschool == "" {
      highschool := Extract(block, PlayerHighSchoolPat, "");
    }
  }

  /** One record per piece after the first, in order. */
  function Records(html: string): seq<Player> {
    MapAll(CardRecord, SplitItems(html)[1..])
  }

  /** Exactly one record per marker occurrence, in order; record `i` is read
      from the text between marker `i` and the next one. */
  lemma RecordsPerMarker(html: string)
    ensures |Records(html)| == |MarkersFrom(html, 0)| == |SplitItems(html)| - 1
    ensures forall i | 0 <= i < |Records(html)| :: Records(html)[i] == CardRecord(SplitItems(html)[i + 1])
  {
    SplitCount(html, 0);
    MapAllAt(CardRecord, SplitItems(html)[1..]);
  }

  /** A page without the marker yields no record. */
  lemma NoMarkerNoRecords(html: string)
    requires NextMarker(html, 0).None?
    ensures Records(html) == []
  {
  }

  /** `parse()`: the loop over `items[1:]`, appending one record each. */
  method Parse(html: string) returns (players: seq<Player>)
    ensures players == Records(html)
  {
    var items := SplitItems(html);
    var blocks := items[1..];
    players := [];
    var i := 0;
    while i < |blocks|
      invariant 0 <= i <= |blocks|
      invariant players == MapAll(CardRecord, blocks[..i])
    {
      var p := ParseCard(blocks[i]);
      MapAllSnoc(CardRecord, blocks, i);
      players := players + [p];
      i := i + 1;
    }
    assert blocks[..|blocks|] == blocks;
  }

  /** The run as a whole: the header row, one row per record, and the printed
      count equal to the number of records. */
  method Run(html: string) returns (table: seq<seq<string>>, written: nat)
    ensures |table| == |Records(html)| + 1 && table[0] == Columns
    ensures forall i | 0 <= i < |Records(html)| :: table[i + 1] == Row(Records(html)[i])
    ensures written == |Records(html)|
  {
    var players := Parse(html);
    table, written := WriteCsv(players);
  }
}
