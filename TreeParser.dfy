/**
 * The tree-based roster extractor (parse_roster.py). Two passes over the
 * parsed document: detailed player-header blocks first, then list-card
 * items, each in document order. Every lookup that finds nothing yields
 * the empty string.
 */
module TreeParser {
  import opened Text
  import opened Wrappers
  import opened Document
  import opened Record

  // The CSS classes the extractor looks for.
  const HeaderBlock := TagClass("div", "sidearm-roster-player-header-details")
  const JerseyNumber := Selector.Class("sidearm-roster-player-jersey-number")
  const PlayerName := Selector.Class("sidearm-roster-player-name")
  const ListCardItem := TagClass("li", "sidearm-list-card-item")
  const JerseyClass := "sidearm-roster-player-jersey"
  const FirstNameClass := Selector.Class("sidearm-roster-player-first-name")
  const LastNameClass := Selector.Class("sidearm-roster-player-last-name")
  const PositionShort := Selector.Class("sidearm-roster-player-position-short")
  const HeightClass := Selector.Class("sidearm-roster-player-height")
  const WeightClass := Selector.Class("sidearm-roster-player-weight")
  const AcademicYear := Selector.Class("sidearm-roster-player-academic-year")
  const HometownClass := Selector.Class("sidearm-roster-player-hometown")
  const HighSchoolClass := Selector.Class("sidearm-roster-player-highschool")
  const PreviousSchool := Selector.Class("sidearm-roster-player-previous-school")
  const Previous := Selector.Class("sidearm-roster-player-previous")

  /** `get_text_or_empty(tag)`: the element's stripped text, or `""` when
      the lookup found nothing. */
  function GetTextOrEmpty(tag: Option<Node>): (r: string)
    ensures tag.None? ==> r == ""
    ensures tag.Some? ==> r == GetText(tag.value)
    ensures IsStripped(r)
  {
    match tag
    case None => ""
    case Some(t) => GetText(t)
  }

  /** The text is already stripped, so the extra `.strip()` applied to the
      header-block jersey number changes nothing. */
  lemma NumberStripIsNoOp(tag: Option<Node>)
    ensures Strip(GetTextOrEmpty(tag)) == GetTextOrEmpty(tag)
  {
    StripStripped(GetTextOrEmpty(tag));
  }

  // ---------------------------------------------------------------------
  // header block: name

  /** A single name span: the first whitespace token is the first name, the
      remaining tokens joined by single spaces are the last name. */
  function OneSpanName(text: string): (string, string) {
    var parts := Words(text);
    (if parts != [] then parts[0] else "",
     if |parts| > 1 then JoinWith(parts[1..], " ") else "")
  }

  /** First and last name from the `span` elements of the name block. */
  function NameFromSpans(spans: seq<Node>): (string, string) {
    if |spans| >= 2 then (GetText(spans[0]), GetText(spans[1]))
    else if |spans| == 1 then OneSpanName(GetText(spans[0]))
    else ("", "")
  }

  /** The name of a header block; both parts are empty without a name
      block. */
  function SplitName(nameBlock: Option<Node>): (string, string) {
    match nameBlock
    case None => ("", "")
    case Some(b) => NameFromSpans(SelectAll(b, Tag("span")))
  }

  /** Two or more spans: the first two give first and last name, and any
      later span is ignored. */
  lemma NameFromTwoSpans(spans: seq<Node>)
    requires |spans| >= 2
    ensures NameFromSpans(spans) == (GetText(spans[0]), GetText(spans[1]))
    ensures NameFromSpans(spans) == NameFromSpans(spans[..2])
  {
  }

  /** No name block, or one without spans, gives two empty names. */
  lemma NameWithoutSpans(nameBlock: Option<Node>)
    requires nameBlock.Some? ==> SelectAll(nameBlock.value, Tag("span")) == []
    ensures SplitName(nameBlock) == ("", "")
  {
  }

  /** One span whose text starts with a word followed by whitespace: that
      word is the first name, and the rest, with its whitespace runs turned
      into single spaces, is the last name. */
  lemma OneSpanFirstWord(w: string, sep: string, rest: string)
    requires w != [] && NoSpace(w) && sep != [] && AllSpace(sep)
    ensures OneSpanName(w + sep + rest) == (w, JoinWith(Words(rest), " "))
  {
    WordsCons(w, sep, rest);
    WordsSkipsLeadingSpace(sep, rest);
    var parts := Words(w + sep + rest);
    assert parts[1..] == Words(rest);
  }

  /** A one-word span is all first name. */
  lemma OneSpanOneWord(w: string)
    requires w != [] && NoSpace(w)
    ensures OneSpanName(w) == (w, "")
  {
    WordsOfWord(w);
  }

  /** A blank span gives two empty names. */
  lemma OneSpanBlank(text: string)
    requires AllSpace(text)
    ensures OneSpanName(text) == ("", "")
  {
    WordsOfSpace(text);
  }

  /** Splitting one span loses nothing but whitespace: first name, a space and
      last name give back the span's words joined by single spaces. */
  lemma OneSpanRejoins(text: string)
    requires |Words(text)| >= 2
    ensures OneSpanName(text).0 + " " + OneSpanName(text).1 == JoinWith(Words(text), " ")
  {
  }

  /** A single span of three words such as "Jordan Lee Smith": the first
      word is the first name and the other two, joined by a space, are the
      last name. */
  lemma OneSpanThreeWords(a: string, b: string, c: string)
    requires AreWords([a, b, c])
    ensures OneSpanName(a + " " + b + " " + c) == (a, b + " " + c)
  {
    assert [a, b, c][0] == a && [a, b, c][1] == b && [a, b, c][2] == c;
    TwoWordsRejoin(b, c);
    assert a + " " + b + " " + c == a + " " + (b + " " + c);
    OneSpanFirstWord(a, " ", b + " " + c);
  }

  lemma SingleSpace()
    ensures AllSpace(" ")
  {
    assert IsSpace(" "[0]);
  }

  /** Two words separated by one space split into those words and join back
      into the same text. */
  lemma TwoWordsRejoin(b: string, c: string)
    requires b != [] && NoSpace(b) && c != [] && NoSpace(c)
    ensures JoinWith(Words(b + " " + c), " ") == b + " " + c
  {
    SingleSpace();
    TwoWords(b, " ", c);
    TwoWordsJoin(b, c);
  }

  lemma TwoWords(b: string, sep: string, c: string)
    requires b != [] && NoSpace(b) && c != [] && NoSpace(c) && sep != [] && AllSpace(sep)
    ensures Words(b + sep + c) == [b, c]
  {
    WordsCons(b, sep, c);
    WordsSkipsLeadingSpace(sep, c);
    WordsOfWord(c);
    assert [b] + [c] == [b, c];
  }

  lemma TwoWordsJoin(b: string, c: string)
    ensures JoinWith([b, c], " ") == b + " " + c
  {
    assert [b, c][1..] == [c];
  }

  // ---------------------------------------------------------------------
  // header block: `dl` fields

  /** The label/value pair of one `dl`: its first `dt` and first `dd`, the
      label with every trailing colon removed. A `dl` lacking either gives
      nothing. */
  function DlEntry(dl: Node): (e: Option<(string, string)>)
    ensures e.None? <==> SelectOne(dl, Tag("dt")).None? || SelectOne(dl, Tag("dd")).None?
    ensures e.Some? ==> (var dtText := GetText(SelectOne(dl, Tag("dt")).value);
      && |e.value.0| <= |dtText| && e.value.0 == dtText[..|e.value.0|]
      && (forall k | |e.value.0| <= k < |dtText| :: dtText[k] == ':')
      && (e.value.0 == [] || e.value.0[|e.value.0| - 1] != ':'))
    ensures e.Some? ==> e.value.1 == GetText(SelectOne(dl, Tag("dd")).value)
  {
    match (SelectOne(dl, Tag("dt")), SelectOne(dl, Tag("dd")))
    case (Some(dt), Some(dd)) => Some((RStripChar(GetText(dt), ':'), GetText(dd)))
    case _ => None
  }

  /** The pair `e` carries the label `k`. */
  predicate HasLabel(e: Option<(string, string)>, k: string) {
    e.Some? && e.value.0 == k
  }

  /** A dictionary filled from a sequence of optional pairs, in order: a later
      pair overwrites an earlier one with the same label. */
  function Fill(es: seq<Option<(string, string)>>): map<string, string> {
    if es == [] then map[]
    else
      var m := Fill(es[..|es| - 1]);
      match es[|es| - 1]
      case None => m
      case Some(kv) => m[kv.0 := kv.1]
  }

  /** The pairs of a sequence of `dl` elements, one per element. */
  function Entries(dls: seq<Node>): (es: seq<Option<(string, string)>>)
    ensures |es| == |dls| && forall i | 0 <= i < |dls| :: es[i] == DlEntry(dls[i])
  {
    seq(|dls|, i requires 0 <= i < |dls| => DlEntry(dls[i]))
  }

  /** The `fields` dictionary after the `dl` loop. */
  function FieldsOf(dls: seq<Node>): map<string, string> {
    Fill(Entries(dls))
  }

  lemma FillSnoc(es: seq<Option<(string, string)>>, i: nat)
    requires i < |es|
    ensures Fill(es[..i + 1]) ==
      match es[i] case None => Fill(es[..i]) case Some(kv) => Fill(es[..i])[kv.0 := kv.1]
  {
    assert es[..i + 1][..i] == es[..i];
  }

  /** The `dl` loop, filling the dictionary in place. */
  method CollectFields(block: Node) returns (fields: map<string, string>)
    ensures fields == FieldsOf(SelectAll(block, Tag("dl")))
  {
    var dls := SelectAll(block, Tag("dl"));
    ghost var es := Entries(dls);
    fields := map[];
    var i := 0;
    while i < |dls|
      invariant 0 <= i <= |dls|
      invariant fields == Fill(es[..i])
    {
      var dt := SelectOne(dls[i], Tag("dt"));
      var dd := SelectOne(dls[i], Tag("dd"));
      FillSnoc(es, i);
      if dt.Some? && dd.Some? {
        var key := RStripChar(GetText(dt.value), ':');
        var val := GetText(dd.value);
        fields := fields[key := val];
      }
      i := i + 1;
    }
    assert es[..|dls|] == es;
  }

  /** A label is in the dictionary exactly when some pair carries it. */
  lemma {:induction false} FillKeys(es: seq<Option<(string, string)>>, k: string)
    ensures k in Fill(es) <==> exists i | 0 <= i < |es| :: HasLabel(es[i], k)
  {
    if es != [] {
      var n := |es| - 1;
      var init := es[..n];
      FillKeys(init, k);
      assert forall i | 0 <= i < n :: init[i] == es[i];
    }
  }

  /** The last pair with a label decides its value. */
  lemma {:induction false} FillLastWins(es: seq<Option<(string, string)>>, i: nat, k: string, v: string)
    requires i < |es| && es[i] == Some((k, v))
    requires forall j | i < j < |es| :: !HasLabel(es[j], k)
    ensures k in Fill(es) && Fill(es)[k] == v
  {
    var init := es[..|es| - 1];
    if i < |es| - 1 {
      assert init[i] == es[i];
      assert forall j | i < j < |init| :: init[j] == es[j];
      FillLastWins(init, i, k, v);
    }
  }

  /** A label is a key of `fields` exactly when some `dl` has both a `dt`
      and a `dd` and that label. */
  lemma FieldsKeys(dls: seq<Node>, k: string)
    ensures k in FieldsOf(dls) <==> exists i | 0 <= i < |dls| :: HasLabel(DlEntry(dls[i]), k)
  {
    FillKeys(Entries(dls), k);
  }

  /** When the same label appears in several `dl` elements, the last one
      decides the value. */
  lemma FieldsLastWins(dls: seq<Node>, i: nat, k: string, v: string)
    requires i < |dls| && DlEntry(dls[i]) == Some((k, v))
    requires forall j | i < j < |dls| :: !HasLabel(DlEntry(dls[j]), k)
    ensures k in FieldsOf(dls) && FieldsOf(dls)[k] == v
  {
    FillLastWins(Entries(dls), i, k, v);
  }

  /** `fields.get(key, '')`. */
  function Lookup(fields: map<string, string>, key: string): (r: string)
    ensures key in fields ==> r == fields[key]
    ensures key !in fields ==> r == ""
  {
    if key in fields then fields[key] else ""
  }

  /** A pair with another label, or a `dl` without a pair, leaves the value
      looked up for `k` unchanged. */
  lemma OtherLabelsIgnored(dls: seq<Node>, dl: Node, k: string)
    requires !HasLabel(DlEntry(dl), k)
    ensures Lookup(FieldsOf(dls + [dl]), k) == Lookup(FieldsOf(dls), k)
  {
    var es := Entries(dls + [dl]);
    FillSnoc(es, |dls|);
    assert es[..|dls| + 1] == es;
    assert es[..|dls|] == Entries(dls);
  }

  /** The six labels a header block reads. */
  const KnownLabels: seq<string> := ["Position", "Weight", "Height", "Hometown", "Class", "High School"]

  /** The header-block record: the six known labels projected out of the
      field dictionary, each defaulting to `""`. */
  function FromFields(number: string, first: string, last: string, fields: map<string, string>): Player {
    Player(number, first, last,
      Lookup(fields, "Position"), Lookup(fields, "Weight"), Lookup(fields, "Height"),
      Lookup(fields, "Hometown"), Lookup(fields, "Class"), Lookup(fields, "High School"))
  }

  /** Only the six known labels are read: two dictionaries that agree on
      them give the same record, whatever else they hold. */
  lemma OnlyKnownLabelsRead(number: string, first: string, last: string, f: map<string, string>, g: map<string, string>)
    requires forall i | 0 <= i < |KnownLabels| :: Lookup(f, KnownLabels[i]) == Lookup(g, KnownLabels[i])
    ensures FromFields(number, first, last, f) == FromFields(number, first, last, g)
  {
    assert KnownLabels[0] == "Position" && KnownLabels[1] == "Weight" && KnownLabels[2] == "Height";
    assert KnownLabels[3] == "Hometown" && KnownLabels[4] == "Class" && KnownLabels[5] == "High School";
  }

  /** Each of the six labels that is missing gives an empty field. */
  lemma MissingLabelIsEmpty(number: string, first: string, last: string, fields: map<string, string>)
    ensures var p := FromFields(number, first, last, fields);
      && ("Position" !in fields ==> p.position == "")
      && ("Weight" !in fields ==> p.weight == "")
      && ("Height" !in fields ==> p.height == "")
      && ("Hometown" !in fields ==> p.hometown == "")
      && ("Class" !in fields ==> p.academicYear == "")
      && ("High School" !in fields ==> p.highSchool == "")
  {
  }

  /** The record of one header block. */
  function HeaderRecord(block: Node): Player {
    var name := SplitName(SelectOne(block, PlayerName));
    FromFields(Strip(GetTextOrEmpty(SelectOne(block, JerseyNumber))), name.0, name.1,
      FieldsOf(SelectAll(block, Tag("dl"))))
  }

  /** A header block's number is the jersey element's text, and its weight is
      the `Weight` value exactly as written: no unit is removed. */
  lemma HeaderRecordFields(block: Node)
    ensures HeaderRecord(block).number == GetTextOrEmpty(SelectOne(block, JerseyNumber))
    ensures HeaderRecord(block).weight == Lookup(FieldsOf(SelectAll(block, Tag("dl"))), "Weight")
  {
    NumberStripIsNoOp(SelectOne(block, JerseyNumber));
  }

  /** One pass of the header-block loop. */
  method ParseHeaderBlock(block: Node) returns (p: Player)
    ensures p == HeaderRecord(block)
  {
    var number := Strip(GetTextOrEmpty(SelectOne(block, JerseyNumber)));
    var nameBlock := SelectOne(block, PlayerName);
    var first, last := "", "";
    if nameBlock.Some? {
      var spans := SelectAll(nameBlock.value, Tag("span"));
      if |spans| >= 2 {
        first := GetText(spans[0]);
        last := GetText(spans[1]);
      } else if |spans| == 1 {
        var parts := Words(GetText(spans[0]));
        first := if parts != [] then parts[0] else "";
        last := if |parts| > 1 then JoinWith(parts[1..], " ") else "";
      }
    }
    var fields := CollectFields(block);
    p := FromFields(number, first, last, fields);
  }

  // ---------------------------------------------------------------------
  // list card

  /** The list-card number: the nested jersey span's text whenever that span
      exists, otherwise the `data-player-id` attribute, otherwise `""`. */
  function CardNumber(li: Node): string {
    match SelectOneNested(li, JerseyClass, "span")
    case Some(t) => GetText(t)
    case None => Attr(li, "data-player-id", "")
  }

  /** The number falls back on element absence, not on empty text: a present
      but empty jersey span gives `""` even when the attribute is set. */
  lemma CardNumberRules(li: Node)
    ensures SelectOneNested(li, JerseyClass, "span").Some? ==>
      CardNumber(li) == GetText(SelectOneNested(li, JerseyClass, "span").value)
    ensures SelectOneNested(li, JerseyClass, "span").None? && li.Element? && "data-player-id" in li.attrs ==>
      CardNumber(li) == li.attrs["data-player-id"]
    ensures SelectOneNested(li, JerseyClass, "span").None? && !(li.Element? && "data-player-id" in li.attrs) ==>
      CardNumber(li) == ""
  {
  }

  /** The number in terms of the jersey spans themselves: the text of the
      first `span` in document order below an element with the jersey class
      (the item included), and the `data-player-id` attribute only when no
      such `span` exists. */
  lemma CardNumberIsFirstJerseySpan(li: Node)
    ensures var ps := PlacedDescendants(li);
      && ((forall k | 0 <= k < |ps| :: !Qualifies(ps[k], JerseyClass, "span")) ==>
        CardNumber(li) == Attr(li, "data-player-id", ""))
      && (!(forall k | 0 <= k < |ps| :: !Qualifies(ps[k], JerseyClass, "span")) ==>
        exists k | 0 <= k < |ps| :: Qualifies(ps[k], JerseyClass, "span") &&
          (forall j | 0 <= j < k :: !Qualifies(ps[j], JerseyClass, "span")) &&
          CardNumber(li) == GetText(ps[k].0))
  {
    SelectOneNestedIsFirstQualifying(li, JerseyClass, "span");
  }

  /** The high school: the first non-empty of the highschool, previous-school
      and previous elements' texts. */
  function CardHighSchool(li: Node): string {
    FirstNonEmpty([
      GetTextOrEmpty(SelectOne(li, HighSchoolClass)),
      GetTextOrEmpty(SelectOne(li, PreviousSchool)),
      GetTextOrEmpty(SelectOne(li, Previous))])
  }

  /** The high-school fallback is triggered by empty text: a present but empty
      highschool element defers to the previous-school text. */
  lemma HighSchoolFallsBackOnEmptyText(li: Node)
    requires GetTextOrEmpty(SelectOne(li, HighSchoolClass)) == ""
    requires GetTextOrEmpty(SelectOne(li, PreviousSchool)) != ""
    ensures CardHighSchool(li) == GetText(SelectOne(li, PreviousSchool).value)
  {
    FirstOfThree(GetTextOrEmpty(SelectOne(li, HighSchoolClass)),
      GetTextOrEmpty(SelectOne(li, PreviousSchool)), GetTextOrEmpty(SelectOne(li, Previous)));
  }

  /** The record of one list card. */
  function CardRecord(li: Node): Player {
    Player(
      CardNumber(li),
      GetTextOrEmpty(SelectOne(li, FirstNameClass)),
      GetTextOrEmpty(SelectOne(li, LastNameClass)),
      GetTextOrEmpty(SelectOne(li, PositionShort)),
      NormalizeWeight(GetTextOrEmpty(SelectOne(li, WeightClass))),
      GetTextOrEmpty(SelectOne(li, HeightClass)),
      GetTextOrEmpty(SelectOne(li, HometownClass)),
      GetTextOrEmpty(SelectOne(li, AcademicYear)),
      CardHighSchool(li))
  }

  /** The number step of the list-card loop: the jersey span's text, and the
      attribute only when no such span exists. */
  method FindCardNumber(li: Node) returns (num: string)
    ensures num == CardNumber(li)
  {
    var numTag := SelectOneNested(li, JerseyClass, "span");
    if numTag.Some? {
      num := GetText(numTag.value);
    } else {
      num := Attr(li, "data-player-id", "");
    }
  }

  /** The high-school step of the list-card loop, reassigning the value while
      it is still empty. It is empty only when all three sources are. */
  method FindHighSchool(li: Node) returns (highschool: string)
    ensures highschool == CardHighSchool(li)
    ensures highschool == "" <==>
      GetTextOrEmpty(SelectOne(li, HighSchoolClass)) == "" &&
      GetTextOrEmpty(SelectOne(li, PreviousSchool)) == "" &&
      GetTextOrEmpty(SelectOne(li, Previous)) == ""
  {
    FirstOfThree(GetTextOrEmpty(SelectOne(li, HighSchoolClass)), GetTextOrEmpty(SelectOne(li, PreviousSchool)),
      GetTextOrEmpty(SelectOne(li, Previous)));
    highschool := GetTextOrEmpty(SelectOne(li, HighSchoolClass));
    if highschool == "" {
      highschool := GetTextOrEmpty(SelectOne(li, PreviousSchool));
    }
    if highschool == "" {
      highschool := GetTextOrEmpty(SelectOne(li, Previous));
    }
  }

  /** One pass of the list-card loop. */
  method ParseListCard(li: Node) returns (p: Player)
    ensures p == CardRecord(li)
  {
    var num := FindCardNumber(li);
    var first := GetTextOrEmpty(SelectOne(li, FirstNameClass));
    var last := GetTextOrEmpty(SelectOne(li, LastNameClass));
    var pos := GetTextOrEmpty(SelectOne(li, PositionShort));
    var height := GetTextOrEmpty(SelectOne(li, HeightClass));
    var weight := GetTextOrEmpty(SelectOne(li, WeightClass));
    var cls := GetTextOrEmpty(SelectOne(li, AcademicYear));
    var hometown := GetTextOrEmpty(SelectOne(li, HometownClass));
    var highschool := FindHighSchool(li);
    p := Player(num, first, last, pos, NormalizeWeight(weight), height, hometown, cls, highschool);
  }

  // ---------------------------------------------------------------------
  // the whole document

  /** Header-block records in document order, then list-card records in
      document order. */
  function Records(doc: Node): seq<Player> {
    MapAll(HeaderRecord, SelectAll(doc, HeaderBlock)) + MapAll(CardRecord, SelectAll(doc, ListCardItem))
  }

  /** One record per header block and per list card, no de-duplication,
      header blocks first and each group in document order. */
  lemma RecordsLayout(doc: Node)
    ensures var blocks, items := SelectAll(doc, HeaderBlock), SelectAll(doc, ListCardItem);
      && |Records(doc)| == |blocks| + |items|
      && (forall i | 0 <= i < |blocks| :: Records(doc)[i] == HeaderRecord(blocks[i]))
      && (forall j | 0 <= j < |items| :: Records(doc)[|blocks| + j] == CardRecord(items[j]))
  {
    MapAllPairAt(HeaderRecord, SelectAll(doc, HeaderBlock), CardRecord, SelectAll(doc, ListCardItem));
  }

  /** A document with neither layout yields no record. */
  lemma NoEntriesNoRecords(doc: Node)
    requires SelectAll(doc, HeaderBlock) == [] && SelectAll(doc, ListCardItem) == []
    ensures Records(doc) == []
  {
  }

  /** The header-block loop of `parse()`, appending one record per block. */
  method AppendHeaderRecords(players0: seq<Player>, blocks: seq<Node>) returns (players: seq<Player>)
    ensures players == players0 + MapAll(HeaderRecord, blocks)
  {
    players := players0;
    var i := 0;
    assert players == players0 + MapAll(HeaderRecord, blocks[..0]);
    while i < |blocks|
      invariant 0 <= i <= |blocks|
      invariant players == players0 + MapAll(HeaderRecord, blocks[..i])
    {
      var p := ParseHeaderBlock(blocks[i]);
      MapAllSnoc(HeaderRecord, blocks, i);
      AppendAssoc(players0, MapAll(HeaderRecord, blocks[..i]), [p]);
      players := players + [p];
      i := i + 1;
    }
    assert blocks[..|blocks|] == blocks;
  }

  /** The list-card loop of `parse()`, appending one record per item. */
  method AppendCardRecords(players0: seq<Player>, items: seq<Node>) returns (players: seq<Player>)
    ensures players == players0 + MapAll(CardRecord, items)
  {
    players := players0;
    var j := 0;
    assert players == players0 + MapAll(CardRecord, items[..0]);
    while j < |items|
      invariant 0 <= j <= |items|
      invariant players == players0 + MapAll(CardRecord, items[..j])
    {
      var p := ParseListCard(items[j]);
      MapAllSnoc(CardRecord, items, j);
      AppendAssoc(players0, MapAll(CardRecord, items[..j]), [p]);
      players := players + [p];
      j := j + 1;
    }
    assert items[..|items|] == items;
  }

  /** `parse()`: header blocks first, then list cards, into one list. */
  method Parse(doc: Node) returns (players: seq<Player>)
    ensures players == Records(doc)
  {
    players := AppendHeaderRecords([], SelectAll(doc, HeaderBlock));
    players := AppendCardRecords(players, SelectAll(doc, ListCardItem));
    assert [] + MapAll(HeaderRecord, SelectAll(doc, HeaderBlock)) == MapAll(HeaderRecord, SelectAll(doc, HeaderBlock));
  }

  /** The run as a whole: the CSV table always starts with the header row,
      then holds one row per record, and the reported count is the number of
      records. */
  method Run(doc: Node) returns (table: seq<seq<string>>, written: nat)
    ensures |table| == |Records(doc)| + 1 && table[0] == Columns
    ensures forall i | 0 <= i < |Records(doc)| :: table[i + 1] == Row(Records(doc)[i])
    ensures written == |Records(doc)|
  {
    var players := Parse(doc);
    table, written := WriteCsv(players);
  }
}
