/**
 * The player record both extractors produce, the fixed CSV layout it is
 * written in, and the two small value rules both extractors share: the
 * textual weight normalisation and the first-non-empty fallback.
 */
module Record {
  import opened Text
  import opened Wrappers

  /** One player; every field defaults to the empty string. */
  datatype Player = Player(
    number: string,
    firstName: string,
    lastName: string,
    position: string,
    weight: string,
    height: string,
    hometown: string,
    academicYear: string,
    highSchool: string)

  /** The nine keys of a record, i.e. the CSV columns. */
  datatype Column = Number | FirstName | LastName | Position | Weight | Height | Hometown | Class | HighSchool

  /** The column order of the CSV file. */
  const Order: seq<Column> :=
    [Number, FirstName, LastName, Position, Weight, Height, Hometown, Class, HighSchool]

  /** The header name of a column. */
  function Name(c: Column): string {
    match c
    case Number => "number"
    case FirstName => "first_name"
    case LastName => "last_name"
    case Position => "position"
    case Weight => "weight"
    case Height => "height"
    case Hometown => "hometown"
    case Class => "class"
    case HighSchool => "high_school"
  }

  /** The header row: the column names in order. */
  const Columns: seq<string> :=
    ["number", "first_name", "last_name", "position", "weight", "height", "hometown", "class", "high_school"]

  /** Every key appears exactly once in the column order, and the header row
      names the columns in that order. */
  lemma ColumnsCoverEveryKey()
    ensures |Order| == |Columns| == 9
    ensures forall c: Column :: c in Order
    ensures forall i, j | 0 <= i < j < |Order| :: Order[i] != Order[j]
    ensures forall i | 0 <= i < |Order| :: Columns[i] == Name(Order[i])
  {
    forall c: Column ensures c in Order {
      var i := match c
        case Number => 0 case FirstName => 1 case LastName => 2 case Position => 3 case Weight => 4
        case Height => 5 case Hometown => 6 case Class => 7 case HighSchool => 8;
      assert Order[i] == c;
    }
  }

  /** The value a record holds under a key (`p[key]`). */
  function Get(p: Player, c: Column): string {
    match c
    case Number => p.number
    case FirstName => p.firstName
    case LastName => p.lastName
    case Position => p.position
    case Weight => p.weight
    case Height => p.height
    case Hometown => p.hometown
    case Class => p.academicYear
    case HighSchool => p.highSchool
  }

  /** `DictWriter.writerow(p)`: the record's values in column order. */
  function Row(p: Player): (r: seq<string>)
    ensures |r| == |Order|
    ensures forall i | 0 <= i < |Order| :: r[i] == Get(p, Order[i])
  {
    [p.number, p.firstName, p.lastName, p.position, p.weight, p.height, p.hometown, p.academicYear, p.highSchool]
  }

  /** Reads a row of the table back into a record. */
  function FromRow(r: seq<string>): Option<Player> {
    if |r| == |Columns| then Some(Player(r[0], r[1], r[2], r[3], r[4], r[5], r[6], r[7], r[8]))
    else None
  }

  /** A row holds exactly the record's fields: reading it back gives the
      record, and every nine-cell row is the row of the record read from it. */
  lemma RowRoundTrip(p: Player, r: seq<string>)
    ensures FromRow(Row(p)) == Some(p)
    ensures FromRow(r) == Some(p) <==> r == Row(p)
  {
  }

  /** The written table: the header, then one row per record in order. The
      count reported afterwards is the number of records written. */
  method WriteCsv(players: seq<Player>) returns (table: seq<seq<string>>, written: nat)
    ensures |table| == |players| + 1 && table[0] == Columns
    ensures forall i | 0 <= i < |players| :: table[i + 1] == Row(players[i])
    ensures written == |table| - 1
  {
    table := [Columns];
    var i := 0;
    while i < |players|
      invariant 0 <= i <= |players|
      invariant |table| == i + 1 && table[0] == Columns
      invariant forall k | 0 <= k < i :: table[k + 1] == Row(players[k])
    {
      table := table + [Row(players[i])];
      i := i + 1;
    }
    written := |players|;
  }

  /** Reading every data row of a written table back gives the records. */
  lemma TableRoundTrip(players: seq<Player>, table: seq<seq<string>>)
    requires |table| == |players| + 1
    requires forall i | 0 <= i < |players| :: table[i + 1] == Row(players[i])
    ensures forall i | 0 <= i < |players| :: FromRow(table[i + 1]) == Some(players[i])
  {
    forall i | 0 <= i < |players| ensures FromRow(table[i + 1]) == Some(players[i]) {
      RowRoundTrip(players[i], table[i + 1]);
    }
  }

  // ---------------------------------------------------------------------
  // record lists

  /** `f` applied to every element, in order: the records one extraction
      loop appends, one per element. */
  function MapAll<T>(f: T -> Player, xs: seq<T>): (r: seq<Player>)
    ensures |r| == |xs|
  {
    if xs == [] then []
    else MapAll(f, xs[..|xs| - 1]) + [f(xs[|xs| - 1])]
  }

  lemma MapAllSnoc<T>(f: T -> Player, xs: seq<T>, i: nat)
    requires i < |xs|
    ensures MapAll(f, xs[..i + 1]) == MapAll(f, xs[..i]) + [f(xs[i])]
  {
    assert xs[..i + 1][..i] == xs[..i];
  }

  /** One record per element, in element order. */
  lemma {:induction false} MapAllAt<T>(f: T -> Player, xs: seq<T>)
    ensures forall i | 0 <= i < |xs| :: MapAll(f, xs)[i] == f(xs[i])
  {
    if xs != [] {
      var init := xs[..|xs| - 1];
      MapAllAt(f, init);
      assert forall i | 0 <= i < |init| :: init[i] == xs[i];
    }
  }

  /** Records appended after `a` sit at `|a|` onwards, one per element. */
  lemma MapAllAfter<T>(a: seq<Player>, f: T -> Player, xs: seq<T>)
    ensures |a + MapAll(f, xs)| == |a| + |xs|
    ensures forall j | 0 <= j < |xs| :: (a + MapAll(f, xs))[|a| + j] == f(xs[j])
  {
    var b := MapAll(f, xs);
    MapAllAt(f, xs);
    forall j | 0 <= j < |xs| ensures (a + b)[|a| + j] == f(xs[j]) {
      assert (a + b)[|a| + j] == b[j];
    }
  }

  /** Two record lists one after the other: the first `|xs|` records come
      from `xs`, the rest from `ys`. */
  lemma MapAllPairAt<S, T>(f: S -> Player, xs: seq<S>, g: T -> Player, ys: seq<T>)
    ensures var r := MapAll(f, xs) + MapAll(g, ys);
      && |r| == |xs| + |ys|
      && (forall i | 0 <= i < |xs| :: r[i] == f(xs[i]))
      && (forall j | 0 <= j < |ys| :: r[|xs| + j] == g(ys[j]))
  {
    MapAllBefore(f, xs, MapAll(g, ys));
    MapAllAfter(MapAll(f, xs), g, ys);
  }

  /** Records followed by `b` still start the list, one per element. */
  lemma MapAllBefore<T>(f: T -> Player, xs: seq<T>, b: seq<Player>)
    ensures forall i | 0 <= i < |xs| :: (MapAll(f, xs) + b)[i] == f(xs[i])
  {
    var a := MapAll(f, xs);
    MapAllAt(f, xs);
    forall i | 0 <= i < |xs| ensures (a + b)[i] == f(xs[i]) {
      assert (a + b)[i] == a[i];
    }
  }

  lemma AppendAssoc<T>(a: seq<T>, b: seq<T>, c: seq<T>)
    ensures (a + b) + c == a + (b + c)
  {
  }

  // ---------------------------------------------------------------------
  // weight normalisation

  /** `weight.replace('lbs', '').replace('lbs.', '').strip()`. The result
      is stripped and contains only characters of the input. */
  function NormalizeWeight(w: string): (r: string)
    ensures IsStripped(r)
    ensures forall c | c in r :: c in w
  {
    var once := Replace(w, "lbs", "");
    var twice := Replace(once, "lbs.", "");
    ReplaceDeletes(w, "lbs");
    ReplaceDeletes(once, "lbs.");
    StripChars(twice);
    Strip(twice)
  }

  /** A stripped weight without the letter `l` is left as it is. */
  lemma WeightWithoutUnit(d: string)
    requires IsStripped(d) && 'l' !in d
    ensures NormalizeWeight(d) == d
  {
    LacksFirstChar(d, "lbs");
    ReplaceAbsent(d, "lbs", "");
    LacksFirstChar(d, "lbs.");
    ReplaceAbsent(d, "lbs.", "");
    StripStripped(d);
  }

  /** A trailing `lbs` unit, with or without whitespace before it, is
      removed together with that whitespace. */
  lemma WeightWithLbs(d: string, sep: string)
    requires IsStripped(d) && 'l' !in d && AllSpace(sep)
    ensures NormalizeWeight(d + sep + "lbs") == d
  {
    var x := d + sep;
    assert 'l' !in x by {
      assert forall k | 0 <= k < |sep| :: IsSpace(sep[k]);
    }
    ReplaceSkipsPrefix(x, "lbs", "lbs", "");
    assert Replace("lbs", "lbs", "") == "";
    assert x + "" == x;
    LacksFirstChar(x, "lbs.");
    ReplaceAbsent(x, "lbs.", "");
    StripTrailingSpace(d, sep);
  }

  /** A trailing `lbs.` loses only `lbs`: because `lbs` is removed first, the
      later `lbs.` replacement never matches and the full stop stays. */
  lemma WeightWithLbsDot(d: string, sep: string)
    requires d != [] && IsStripped(d) && 'l' !in d && AllSpace(sep)
    ensures NormalizeWeight(d + sep + "lbs.") == d + sep + "."
  {
    var x := d + sep;
    assert 'l' !in x by {
      assert forall k | 0 <= k < |sep| :: IsSpace(sep[k]);
    }
    assert x + "lbs." == x + "lbs.";
    ReplaceSkipsPrefix(x, "lbs.", "lbs", "");
    assert Replace("lbs.", "lbs", "") == ".";
    var y := x + ".";
    assert 'l' !in y;
    LacksFirstChar(y, "lbs.");
    ReplaceAbsent(y, "lbs.", "");
    assert y[0] == d[0] && !IsSpace(y[|y| - 1]);
    StripStripped(y);
  }

  /** The documented weights `185 lbs`, `185lbs` and `185` give `185`;
      `185 lbs.` gives `185 .`. */
  lemma WeightExamples()
    ensures NormalizeWeight("185 lbs") == "185"
    ensures NormalizeWeight("185lbs") == "185"
    ensures NormalizeWeight("185") == "185"
    ensures NormalizeWeight("185 lbs.") == "185 ."
  {
    WeightExampleSpace();
    WeightExampleNoSpace();
    WeightWithoutUnit("185");
    WeightExampleDot();
  }

  lemma WeightExampleSpace()
    ensures NormalizeWeight("185 lbs") == "185"
  {
    WeightWithLbs("185", " ");
    assert "185" + " " + "lbs" == "185 lbs";
  }

  lemma WeightExampleNoSpace()
    ensures NormalizeWeight("185lbs") == "185"
  {
    WeightWithLbs("185", "");
    assert "185" + "" + "lbs" == "185lbs";
  }

  lemma WeightExampleDot()
    ensures NormalizeWeight("185 lbs.") == "185 ."
  {
    WeightWithLbsDot("185", " ");
    assert "185" + " " + "lbs." == "185 lbs.";
    assert "185" + " " + "." == "185 .";
  }

  // ---------------------------------------------------------------------
  // fallback chains

  /** The first non-empty string of `xs`, or `""` when all are empty. */
  function FirstNonEmpty(xs: seq<string>): (r: string)
    ensures r == "" <==> forall k | 0 <= k < |xs| :: xs[k] == ""
    ensures r != "" ==> exists k | 0 <= k < |xs| :: xs[k] == r && forall j | 0 <= j < k :: xs[j] == ""
  {
    if xs == [] then ""
    else if xs[0] != "" then xs[0]
    else
      var r := FirstNonEmpty(xs[1..]);
      assert forall k | 1 <= k < |xs| :: xs[k] == xs[1..][k - 1];
      r
  }

  /** The three-way fallback written out. */
  lemma FirstOfThree(a: string, b: string, c: string)
    ensures FirstNonEmpty([a, b, c]) == if a != "" then a else if b != "" then b else c
  {
    assert [c][1..] == [];
    assert FirstNonEmpty([c]) == c;
    assert [b, c][1..] == [c];
    assert FirstNonEmpty([b, c]) == if b != "" then b else c;
    assert [a, b, c][1..] == [b, c];
  }
}
