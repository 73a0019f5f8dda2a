/** The CVRPLIB converter (convert_cvrplib.py).  Parsing is a line-by-line
    state machine: header lines before any section are ignored except
    `CAPACITY`, `NODE_COORD_SECTION` switches to reading `id x y` lines,
    `DEMAND_SECTION` to reading `id demand` lines.  Node 1 is the depot;
    every other node becomes a customer in file order, and a demand line
    for node `id` lands on the customer at list position `id - 2`.
    Python's `int()` raising on a malformed number is `None` here; `float()`
    is the parameter `toReal`. */
module CvrpLib {
  import opened SeqUtil
  import opened Text

  /** One customer as the converter records it. */
  datatype Node = Node(id: int, x: real, y: real, demand: int)

  /** The dictionary `parse_vrp_file` builds. */
  datatype Data = Data(capacity: int, depot: Option<(real, real)>, customers: seq<Node>)

  /** Which section of the file the parser is in. */
  datatype Section = NoSection | Coords | Demands

  datatype Parser = Parser(section: Section, data: Data)

  /** Before the first line: capacity 0, no depot, no customers. */
  const Start := Parser(NoSection, Data(0, None, []))

  /** The list position a demand line for node `id` writes to, when there is
      one: node ids start at 2 for customers, since node 1 is the depot. */
  predicate Addresses(data: Data, id: int) {
    id > 1 && id - 2 < |data.customers|
  }

  /** A line `id x y` of NODE_COORD_SECTION; shorter lines are skipped. */
  function CoordLine(p: Parser, parts: seq<string>, toReal: string -> Option<real>): (r: Option<Parser>)
    ensures r.Some? ==> Extends(p.data, r.value.data)
    ensures r.Some? && DepotApart(p.data) ==> DepotApart(r.value.data)
  {
    if |parts| < 3 then Some(p)
    else match (ParseInt(parts[0]), toReal(parts[1]), toReal(parts[2]))
      case (Some(id), Some(x), Some(y)) =>
        if id == 1 then Some(p.(data := p.data.(depot := Some((x, y)))))
        else Some(p.(data := p.data.(customers := p.data.customers + [Node(id, x, y, 0)])))
      case _ => None
  }

  /** A line `id demand` of DEMAND_SECTION; shorter lines are skipped, and so
      are the depot and ids past the end of the customer list. */
  function DemandLine(p: Parser, parts: seq<string>): (r: Option<Parser>)
    ensures r.Some? ==> Extends(p.data, r.value.data)
    ensures r.Some? && DepotApart(p.data) ==> DepotApart(r.value.data)
  {
    if |parts| < 2 then Some(p)
    else match (ParseInt(parts[0]), ParseInt(parts[1]))
      case (Some(id), Some(demand)) =>
        if Addresses(p.data, id) then
          var cs := p.data.customers;
          Some(p.(data := p.data.(customers := cs[id - 2 := cs[id - 2].(demand := demand)])))
        else Some(p)
      case _ => None
  }

  /** A line that is neither blank nor a header, split on whitespace. */
  function SectionLine(p: Parser, parts: seq<string>, toReal: string -> Option<real>): (r: Option<Parser>)
    ensures r.Some? ==> Extends(p.data, r.value.data)
    ensures r.Some? && DepotApart(p.data) ==> DepotApart(r.value.data)
  {
    match p.section
    case NoSection => Some(p)
    case Coords => CoordLine(p, parts, toReal)
    case Demands => DemandLine(p, parts)
  }

  /** Only demands are ever overwritten: every customer of `before` is
      still in place in `after`, with the same id and coordinates, and none
      of them is the depot. */
  ghost predicate Extends(before: Data, after: Data) {
    && |before.customers| <= |after.customers|
    && forall j :: 0 <= j < |before.customers| ==>
         && after.customers[j].id == before.customers[j].id
         && after.customers[j].x == before.customers[j].x
         && after.customers[j].y == before.customers[j].y
  }

  /** No customer carries the depot's node id. */
  ghost predicate DepotApart(data: Data) {
    forall j :: 0 <= j < |data.customers| ==> data.customers[j].id != 1
  }

  /** What a stripped line of the file is, in the order the loop tests it. */
  datatype Kind =
    | Blank
    | CapacityLine(value: Option<int>)  // None: no number after the colon, so `int()` or the index raises
    | SectionHeader(section: Section)
    | Marker                            // DEPOT_SECTION or EOF
    | Fields(parts: seq<string>)

  function Classify(line: string): Kind
  {
    if line == [] then Blank
    else if StartsWith(line, "CAPACITY") then
      var pieces := SplitOn(line, ':');
      CapacityLine(if |pieces| < 2 then None else ParseInt(pieces[1]))
    else if line == "NODE_COORD_SECTION" then SectionHeader(Coords)
    else if line == "DEMAND_SECTION" then SectionHeader(Demands)
    else if StartsWith(line, "DEPOT_SECTION") || StartsWith(line, "EOF") then Marker
    else Fields(Words(line))
  }

  function Apply(p: Parser, kind: Kind, toReal: string -> Option<real>): (r: Option<Parser>)
    ensures r.Some? ==> Extends(p.data, r.value.data)
    ensures r.Some? && DepotApart(p.data) ==> DepotApart(r.value.data)
  {
    match kind
    case Blank => Some(p)
    case CapacityLine(None) => None
    case CapacityLine(Some(c)) => Some(p.(data := p.data.(capacity := c)))
    case SectionHeader(section) => Some(p.(section := section))
    case Marker => Some(p)
    case Fields(parts) => SectionLine(p, parts, toReal)
  }

  /** One iteration of the loop over the file's lines. */
  function Step(p: Parser, raw: string, toReal: string -> Option<real>): (r: Option<Parser>)
    ensures r.Some? ==> Extends(p.data, r.value.data)
    ensures r.Some? && DepotApart(p.data) ==> DepotApart(r.value.data)
  {
    Apply(p, Classify(Strip(raw)), toReal)
  }

  /** The parser after the given lines, or `None` once one of them raised. */
  function Feed(p: Parser, lines: seq<string>, toReal: string -> Option<real>): (r: Option<Parser>)
    ensures r.Some? ==> Extends(p.data, r.value.data)
    ensures r.Some? && DepotApart(p.data) ==> DepotApart(r.value.data)
    decreases |lines|
  {
    if lines == [] then Some(p)
    else match Feed(p, lines[..|lines| - 1], toReal)
      case None => None
      case Some(q) => Step(q, lines[|lines| - 1], toReal)
  }

  /** Continue from an outcome that may already have failed. */
  function Then(r: Option<Parser>, lines: seq<string>, toReal: string -> Option<real>): Option<Parser>
  {
    match r
    case None => None
    case Some(q) => Feed(q, lines, toReal)
  }

  /** `parse_vrp_file` over the file's lines. */
  function ParseVrpFile(lines: seq<string>, toReal: string -> Option<real>): (r: Option<Data>)
    ensures r.Some? ==> DepotApart(r.value)
  {
    match Feed(Start, lines, toReal)
    case None => None
    case Some(p) => Some(p.data)
  }

  /** `convert_to_json` without the file writing: the parsed data, with the
      depot placed at (0, 0) when the file named none. */
  function ConvertToJson(lines: seq<string>, toReal: string -> Option<real>): (r: Option<Data>)
    ensures r.Some? <==> ParseVrpFile(lines, toReal).Some?
    ensures r.Some? ==> r.value.depot.Some?
    ensures r.Some? ==> r.value.capacity == ParseVrpFile(lines, toReal).value.capacity
    ensures r.Some? ==> r.value.customers == ParseVrpFile(lines, toReal).value.customers
    ensures r.Some? && ParseVrpFile(lines, toReal).value.depot.Some? ==> r.value.depot == ParseVrpFile(lines, toReal).value.depot
  {
    match ParseVrpFile(lines, toReal)
    case None => None
    case Some(data) => Some(if data.depot.None? then data.(depot := Some((0.0, 0.0))) else data)
  }

  // ----- how lines are classified -----

  lemma FeedOne(p: Parser, line: string, toReal: string -> Option<real>)
    ensures Feed(p, [line], toReal) == Step(p, line, toReal)
  {
    assert [line][..0] == [];
  }

  /** Reading two stretches of lines is reading the first, then the second. */
  lemma {:induction false} FeedConcat(p: Parser, a: seq<string>, b: seq<string>, toReal: string -> Option<real>)
    ensures Feed(p, a + b, toReal) == Then(Feed(p, a, toReal), b, toReal)
    decreases |b|
  {
    if b == [] {
      assert a + b == a;
    } else {
      var b' := b[..|b| - 1];
      assert (a + b)[..|a + b| - 1] == a + b';
      FeedConcat(p, a, b', toReal);
    }
  }

  /** A token that `int()` accepts starts with a digit or a sign. */
  lemma NumberStart(w: string)
    requires Token(w) && ParseInt(w).Some?
    ensures IsDigit(w[0]) || w[0] == '+' || w[0] == '-'
  {
    StripTrimmed(w);
  }

  lemma NotPrefix(s: string, prefix: string)
    requires prefix != [] && s != [] && s[0] != prefix[0]
    ensures !StartsWith(s, prefix)
  {
    if |prefix| <= |s| {
      assert s[..|prefix|][0] != prefix[0];
    }
  }

  /** A line whose first word is a number is never a header: its fields go
      to the current section. */
  lemma NumberedLine(raw: string)
    requires Words(Strip(raw)) != [] && ParseInt(Words(Strip(raw))[0]).Some?
    ensures Classify(Strip(raw)) == Fields(Words(Strip(raw)))
  {
    var line := Strip(raw);
    var w := Words(line)[0];
    NumberStart(w);
    assert line != [] && line[0] == w[0];
    NotPrefix(line, "CAPACITY");
    NotPrefix(line, "DEPOT_SECTION");
    NotPrefix(line, "EOF");
    assert line != "NODE_COORD_SECTION" && line != "DEMAND_SECTION";
  }

  lemma DataLine(p: Parser, raw: string, toReal: string -> Option<real>)
    requires Words(Strip(raw)) != [] && ParseInt(Words(Strip(raw))[0]).Some?
    ensures Step(p, raw, toReal) == SectionLine(p, Words(Strip(raw)), toReal)
  {
    NumberedLine(raw);
  }

  lemma Differs(s: string, t: string, i: nat)
    requires i < |s| && i < |t| && s[i] != t[i]
    ensures s != t
  {
  }

  /** Blank lines leave the parser as it was. */
  lemma BlankLine(p: Parser, raw: string, toReal: string -> Option<real>)
    requires Strip(raw) == []
    ensures Step(p, raw, toReal) == Some(p)
  {
  }

  /** `DEPOT_SECTION` and `EOF` lines leave the parser as it was, in any
      section. */
  lemma MarkerLine(p: Parser, raw: string, toReal: string -> Option<real>)
    requires var line := Strip(raw);
      !StartsWith(line, "CAPACITY") && (StartsWith(line, "DEPOT_SECTION") || StartsWith(line, "EOF"))
    ensures Step(p, raw, toReal) == Some(p)
  {
    var line := Strip(raw);
    if StartsWith(line, "DEPOT_SECTION") {
      assert line[..13] == "DEPOT_SECTION";
      assert line[0] == 'D' && line[2] == 'P';
      Differs(line, "NODE_COORD_SECTION", 0);
      Differs(line, "DEMAND_SECTION", 2);
    } else {
      assert line[..3] == "EOF";
      Differs(line, "NODE_COORD_SECTION", 0);
      Differs(line, "DEMAND_SECTION", 0);
    }
  }

  /** Data lines outside any section, and data lines with too few fields
      for their section, leave the parser as it was. */
  lemma ShortLine(p: Parser, raw: string, toReal: string -> Option<real>)
    requires var ws := Words(Strip(raw)); ws != [] && ParseInt(ws[0]).Some?
    requires var n := |Words(Strip(raw))|;
      p.section == NoSection || (p.section == Coords && n < 3) || (p.section == Demands && n < 2)
    ensures Step(p, raw, toReal) == Some(p)
  {
    NumberedLine(raw);
  }

  /** `CAPACITY : n` (any spacing) sets the capacity to n and nothing else;
      a CAPACITY line without a colon or a number raises. */
  lemma CapacityStep(p: Parser, raw: string, toReal: string -> Option<real>)
    requires StartsWith(Strip(raw), "CAPACITY")
    ensures var pieces := SplitOn(Strip(raw), ':');
      Step(p, raw, toReal) ==
        if |pieces| >= 2 && ParseInt(pieces[1]).Some? then Some(p.(data := p.data.(capacity := ParseInt(pieces[1]).value)))
        else None
  {
  }

  // ----- where demands land -----

  /** Customer ids run 2, 3, 4, ... in list order, as in every CVRPLIB
      instance. */
  ghost predicate Aligned(data: Data) {
    forall j :: 0 <= j < |data.customers| ==> data.customers[j].id == j + 2
  }

  /** In an aligned customer list, the demand given for node `id` goes to the
      customer whose id is `id`, and to no other. */
  lemma DemandLands(p: Parser, raw: string, toReal: string -> Option<real>, id: int, demand: int)
    requires p.section == Demands && Aligned(p.data)
    requires var ws := Words(Strip(raw)); |ws| >= 2 && ParseInt(ws[0]) == Some(id) && ParseInt(ws[1]) == Some(demand)
    requires 2 <= id < |p.data.customers| + 2
    ensures Step(p, raw, toReal).Some?
    ensures var q := Step(p, raw, toReal).value;
      && q.section == Demands && Aligned(q.data)
      && q.data.capacity == p.data.capacity && q.data.depot == p.data.depot
      && |q.data.customers| == |p.data.customers|
      && forall j :: 0 <= j < |q.data.customers| ==>
           q.data.customers[j] == if p.data.customers[j].id == id then p.data.customers[j].(demand := demand) else p.data.customers[j]
  {
    DataLine(p, raw, toReal);
  }

  /** A coordinate line for the next id in sequence keeps the list aligned. */
  lemma CoordAligned(p: Parser, raw: string, toReal: string -> Option<real>)
    requires p.section == Coords && Aligned(p.data)
    requires var ws := Words(Strip(raw)); |ws| >= 3 && ParseInt(ws[0]) == Some(|p.data.customers| + 2)
    requires Step(p, raw, toReal).Some?
    ensures Aligned(Step(p, raw, toReal).value.data)
    ensures |Step(p, raw, toReal).value.data.customers| == |p.data.customers| + 1
  {
    DataLine(p, raw, toReal);
  }

  // ----- writing a file and reading it back -----

  /** A coordinate `show` writes as a token that `toReal` reads back. */
  ghost predicate Spelled(v: real, show: real -> string, toReal: string -> Option<real>) {
    Token(show(v)) && toReal(show(v)) == Some(v)
  }

  /** The instances a CVRPLIB file can describe: a depot, customers with ids
      2, 3, ... in order, and coordinates `show` spells faithfully. */
  ghost predicate Writable(data: Data, show: real -> string, toReal: string -> Option<real>) {
    && data.depot.Some? && Aligned(data)
    && Spelled(data.depot.value.0, show, toReal) && Spelled(data.depot.value.1, show, toReal)
    && forall j :: 0 <= j < |data.customers| ==>
         Spelled(data.customers[j].x, show, toReal) && Spelled(data.customers[j].y, show, toReal)
  }

  function CapacityText(capacity: int): string {
    Join(["CAPACITY" + " ", " " + ShowInt(capacity)], ":")
  }

  function CoordText(id: int, x: real, y: real, show: real -> string): string {
    Join([ShowInt(id), show(x), show(y)], " ")
  }

  function DemandText(id: int, demand: int): string {
    Join([ShowInt(id), ShowInt(demand)], " ")
  }

  function CoordLines(cs: seq<Node>, show: real -> string): (lines: seq<string>)
    ensures |lines| == |cs|
  {
    if cs == [] then []
    else
      var c := cs[|cs| - 1];
      CoordLines(cs[..|cs| - 1], show) + [CoordText(c.id, c.x, c.y, show)]
  }

  function DemandLines(cs: seq<Node>): (lines: seq<string>)
    ensures |lines| == |cs|
  {
    if cs == [] then [] else DemandLines(cs[..|cs| - 1]) + [DemandText(cs[|cs| - 1].id, cs[|cs| - 1].demand)]
  }

  function Header(data: Data, show: real -> string): seq<string>
    requires data.depot.Some?
  {
    [CapacityText(data.capacity), "NODE_COORD_SECTION", CoordText(1, data.depot.value.0, data.depot.value.1, show)]
  }

  function Middle(): seq<string> {
    ["DEMAND_SECTION", DemandText(1, 0)]
  }

  function Trailer(): seq<string> {
    ["DEPOT_SECTION", ShowInt(1), ShowInt(-1), "EOF"]
  }

  /** A CVRPLIB file for the data, laid out as the published instances are. */
  function Render(data: Data, show: real -> string): seq<string>
    requires data.depot.Some?
  {
    Header(data, show) + CoordLines(data.customers, show) + Middle() + DemandLines(data.customers) + Trailer()
  }

  /** The customers as NODE_COORD_SECTION alone leaves them: demand 0. */
  function Zeroed(cs: seq<Node>): (zs: seq<Node>)
    ensures |zs| == |cs|
  {
    seq(|cs|, j requires 0 <= j < |cs| => cs[j].(demand := 0))
  }

  /** A stretch of lines that reads as `q` hands the rest of the file to `q`. */
  lemma FeedThrough(p: Parser, a: seq<string>, b: seq<string>, q: Parser, toReal: string -> Option<real>)
    requires Feed(p, a, toReal) == Some(q)
    ensures Feed(p, a + b, toReal) == Feed(q, b, toReal)
  {
    FeedConcat(p, a, b, toReal);
  }

  /** A line that reads as `q` hands the rest of the file to `q`. */
  lemma FeedStep(p: Parser, line: string, rest: seq<string>, q: Parser, toReal: string -> Option<real>)
    requires Step(p, line, toReal) == Some(q)
    ensures Feed(p, [line] + rest, toReal) == Feed(q, rest, toReal)
  {
    FeedConcat(p, [line], rest, toReal);
    FeedOne(p, line, toReal);
  }

  lemma CapacityRead(p: Parser, capacity: int, toReal: string -> Option<real>)
    ensures Step(p, CapacityText(capacity), toReal) == Some(p.(data := p.data.(capacity := capacity)))
  {
    var number := ShowInt(capacity);
    var line := CapacityText(capacity);
    assert line == "CAPACITY" + (" " + ":" + " " + number);
    assert Trimmed(line) by { assert line[0] == 'C' && line[|line| - 1] == number[|number| - 1]; }
    StripTrimmed(line);
    assert ':' !in "CAPACITY" + " ";
    assert ':' !in " " + number;
    SplitJoin(["CAPACITY" + " ", " " + number], ':');
    ParseIntPadded(" ", number, []);
    assert " " + number + [] == " " + number;
    ParseShowInt(capacity);
  }

  lemma SectionRead(p: Parser, toReal: string -> Option<real>)
    ensures Step(p, "NODE_COORD_SECTION", toReal) == Some(p.(section := Coords))
    ensures Step(p, "DEMAND_SECTION", toReal) == Some(p.(section := Demands))
  {
    StripTrimmed("NODE_COORD_SECTION");
    NotPrefix("NODE_COORD_SECTION", "CAPACITY");
    StripTrimmed("DEMAND_SECTION");
    NotPrefix("DEMAND_SECTION", "CAPACITY");
  }

  lemma MarkerRead(p: Parser, toReal: string -> Option<real>)
    ensures Step(p, "DEPOT_SECTION", toReal) == Some(p)
    ensures Step(p, "EOF", toReal) == Some(p)
  {
    StripTrimmed("DEPOT_SECTION");
    NotPrefix("DEPOT_SECTION", "CAPACITY");
    assert StartsWith("DEPOT_SECTION", "DEPOT_SECTION");
    StripTrimmed("EOF");
    NotPrefix("EOF", "CAPACITY");
    assert StartsWith("EOF", "EOF");
  }

  /** A line of tokens whose first is `str(n)` is that section's data. */
  lemma NumbersRead(p: Parser, ws: seq<string>, n: int, toReal: string -> Option<real>)
    requires |ws| >= 1 && ws[0] == ShowInt(n) && forall i :: 0 <= i < |ws| ==> Token(ws[i])
    ensures Step(p, Join(ws, " "), toReal) == SectionLine(p, ws, toReal)
  {
    TokenLine(ws);
    ParseShowInt(n);
    DataLine(p, Join(ws, " "), toReal);
  }

  lemma DepotRead(p: Parser, x: real, y: real, show: real -> string, toReal: string -> Option<real>)
    requires p.section == Coords && Spelled(x, show, toReal) && Spelled(y, show, toReal)
    ensures Step(p, CoordText(1, x, y, show), toReal) == Some(p.(data := p.data.(depot := Some((x, y)))))
  {
    NumbersRead(p, [ShowInt(1), show(x), show(y)], 1, toReal);
    ParseShowInt(1);
  }

  lemma CustomerRead(p: Parser, c: Node, show: real -> string, toReal: string -> Option<real>)
    requires p.section == Coords && c.id != 1 && Spelled(c.x, show, toReal) && Spelled(c.y, show, toReal)
    ensures Step(p, CoordText(c.id, c.x, c.y, show), toReal) == Some(p.(data := p.data.(customers := p.data.customers + [c.(demand := 0)])))
  {
    NumbersRead(p, [ShowInt(c.id), show(c.x), show(c.y)], c.id, toReal);
    ParseShowInt(c.id);
  }

  lemma DemandRead(p: Parser, id: int, demand: int, toReal: string -> Option<real>)
    requires p.section == Demands
    ensures var cs := p.data.customers;
      Step(p, DemandText(id, demand), toReal) ==
        if Addresses(p.data, id) then Some(p.(data := p.data.(customers := cs[id - 2 := cs[id - 2].(demand := demand)])))
        else Some(p)
  {
    NumbersRead(p, [ShowInt(id), ShowInt(demand)], id, toReal);
    ParseShowInt(id);
    ParseShowInt(demand);
  }

  lemma ShortRead(p: Parser, n: int, toReal: string -> Option<real>)
    requires p.section == Demands
    ensures Step(p, ShowInt(n), toReal) == Some(p)
  {
    NumbersRead(p, [ShowInt(n)], n, toReal);
  }

  lemma HeaderBlock(data: Data, show: real -> string, toReal: string -> Option<real>)
    requires Writable(data, show, toReal)
    ensures Feed(Start, Header(data, show), toReal) == Some(Parser(Coords, Data(data.capacity, data.depot, [])))
  {
    var (x, y) := data.depot.value;
    var capacityLine, depotLine := CapacityText(data.capacity), CoordText(1, x, y, show);
    var p1 := Parser(NoSection, Data(data.capacity, None, []));
    var p2 := p1.(section := Coords);
    var p3 := Parser(Coords, Data(data.capacity, data.depot, []));
    assert Header(data, show) == [capacityLine] + (["NODE_COORD_SECTION"] + ([depotLine] + []));
    CapacityRead(Start, data.capacity, toReal);
    SectionRead(p1, toReal);
    DepotRead(p2, x, y, show, toReal);
    FeedStep(p2, depotLine, [], p3, toReal);
    FeedStep(p1, "NODE_COORD_SECTION", [depotLine] + [], p2, toReal);
    FeedStep(Start, capacityLine, ["NODE_COORD_SECTION"] + ([depotLine] + []), p1, toReal);
  }

  lemma {:induction false} CoordBlock(p: Parser, cs: seq<Node>, show: real -> string, toReal: string -> Option<real>)
    requires p.section == Coords
    requires forall j :: 0 <= j < |cs| ==> cs[j].id != 1 && Spelled(cs[j].x, show, toReal) && Spelled(cs[j].y, show, toReal)
    ensures Feed(p, CoordLines(cs, show), toReal) == Some(p.(data := p.data.(customers := p.data.customers + Zeroed(cs))))
    decreases |cs|
  {
    if cs == [] {
      assert p.data.customers + Zeroed(cs) == p.data.customers;
    } else {
      var init, c := cs[..|cs| - 1], cs[|cs| - 1];
      var lines := CoordLines(cs, show);
      assert lines[..|lines| - 1] == CoordLines(init, show);
      assert p.data.customers + Zeroed(init) + [c.(demand := 0)] == p.data.customers + Zeroed(cs);
      CoordBlock(p, init, show, toReal);
      CustomerRead(p.(data := p.data.(customers := p.data.customers + Zeroed(init))), c, show, toReal);
    }
  }

  lemma MiddleBlock(p: Parser, toReal: string -> Option<real>)
    ensures Feed(p, Middle(), toReal) == Some(p.(section := Demands))
  {
    var q := p.(section := Demands);
    var depotLine := DemandText(1, 0);
    assert Middle() == ["DEMAND_SECTION"] + ([depotLine] + []);
    SectionRead(p, toReal);
    DemandRead(q, 1, 0, toReal);
    FeedStep(q, depotLine, [], q, toReal);
    FeedStep(p, "DEMAND_SECTION", [depotLine] + [], q, toReal);
  }

  /** `ds` with the demands of its first `|cs|` entries taken from `cs`. */
  function Filled(ds: seq<Node>, cs: seq<Node>): (fs: seq<Node>)
    ensures |fs| == |ds|
  {
    seq(|ds|, j requires 0 <= j < |ds| => if j < |cs| then ds[j].(demand := cs[j].demand) else ds[j])
  }

  lemma FilledNext(ds: seq<Node>, cs: seq<Node>)
    requires 0 < |cs| <= |ds|
    ensures Filled(ds, cs) == Filled(ds, cs[..|cs| - 1])[|cs| - 1 := ds[|cs| - 1].(demand := cs[|cs| - 1].demand)]
  {
  }

  /** Filling zeroed customers with their own demands gives them back. */
  lemma FilledZeroed(cs: seq<Node>)
    ensures Filled(Zeroed(cs), cs) == cs
  {
    var fs := Filled(Zeroed(cs), cs);
    forall j | 0 <= j < |cs|
      ensures fs[j] == cs[j]
    {
      assert Zeroed(cs)[j] == cs[j].(demand := 0);
    }
  }

  lemma {:induction false} DemandBlock(p: Parser, cs: seq<Node>, toReal: string -> Option<real>)
    requires p.section == Demands && Aligned(p.data) && |cs| <= |p.data.customers|
    requires forall j :: 0 <= j < |cs| ==> cs[j].id == j + 2
    ensures Feed(p, DemandLines(cs), toReal) == Some(p.(data := p.data.(customers := Filled(p.data.customers, cs))))
    decreases |cs|
  {
    var ds := p.data.customers;
    if cs == [] {
      assert Filled(ds, cs) == ds;
    } else {
      var init, c := cs[..|cs| - 1], cs[|cs| - 1];
      var lines := DemandLines(cs);
      assert lines[..|lines| - 1] == DemandLines(init);
      DemandBlock(p, init, toReal);
      FilledNext(ds, cs);
      var q := p.(data := p.data.(customers := Filled(ds, init)));
      assert Addresses(q.data, c.id);
      DemandRead(q, c.id, c.demand, toReal);
    }
  }

  lemma TrailerBlock(p: Parser, toReal: string -> Option<real>)
    requires p.section == Demands
    ensures Feed(p, Trailer(), toReal) == Some(p)
  {
    var one, minusOne := ShowInt(1), ShowInt(-1);
    assert Trailer() == ["DEPOT_SECTION"] + ([one] + ([minusOne] + (["EOF"] + [])));
    MarkerRead(p, toReal);
    ShortRead(p, 1, toReal);
    ShortRead(p, -1, toReal);
    FeedStep(p, "EOF", [], p, toReal);
    FeedStep(p, minusOne, ["EOF"] + [], p, toReal);
    FeedStep(p, one, [minusOne] + (["EOF"] + []), p, toReal);
    FeedStep(p, "DEPOT_SECTION", [one] + ([minusOne] + (["EOF"] + [])), p, toReal);
  }

  /** Parsing inverts rendering: a CVRPLIB file written for the data reads
      back as exactly that data. */
  lemma ParseRender(data: Data, show: real -> string, toReal: string -> Option<real>)
    requires Writable(data, show, toReal)
    ensures ParseVrpFile(Render(data, show), toReal) == Some(data)
  {
    var cs := data.customers;
    var head, coords, middle, demands, tail := Header(data, show), CoordLines(cs, show), Middle(), DemandLines(cs), Trailer();
    var p1 := Parser(Coords, Data(data.capacity, data.depot, []));
    var p2 := Parser(Coords, Data(data.capacity, data.depot, Zeroed(cs)));
    var p3 := p2.(section := Demands);
    var p4 := Parser(Demands, data);
    HeaderBlock(data, show, toReal);
    CoordBlock(p1, cs, show, toReal);
    assert [] + Zeroed(cs) == Zeroed(cs);
    FeedThrough(Start, head, coords, p1, toReal);
    MiddleBlock(p2, toReal);
    FeedThrough(Start, head + coords, middle, p2, toReal);
    DemandBlock(p3, cs, toReal);
    FilledZeroed(cs);
    FeedThrough(Start, head + coords + middle, demands, p3, toReal);
    TrailerBlock(p4, toReal);
    FeedThrough(Start, head + coords + middle + demands, tail, p4, toReal);
  }

  /** Converting a rendered file changes nothing, since it names its depot. */
  lemma ConvertRender(data: Data, show: real -> string, toReal: string -> Option<real>)
    requires Writable(data, show, toReal)
    ensures ConvertToJson(Render(data, show), toReal) == Some(data)
  {
    ParseRender(data, show, toReal);
  }

  // ----- batch conversion -----

  /** The last position of `c` in `s`, or -1 (Python's `str.rfind`). */
  function LastIndex(s: string, c: char): (i: int)
    ensures -1 <= i < |s| && (i >= 0 ==> s[i] == c)
    ensures forall j :: i < j < |s| ==> s[j] != c
  {
    if s == [] then -1
    else if s[|s| - 1] == c then |s| - 1
    else LastIndex(s[..|s| - 1], c)
  }

  /** `os.path.splitext(path)[0]` on POSIX: everything before the last dot
      of the final path component, unless that component is only dots up to
      that point (a leading dot marks a hidden file, not an extension). */
  function Stem(path: string): string
  {
    var sepAt, dotAt := LastIndex(path, '/'), LastIndex(path, '.');
    if dotAt > sepAt && exists k :: sepAt + 1 <= k < dotAt && path[k] != '.' then path[..dotAt] else path
  }

  /** The output name `batch_convert` gives an input file. */
  function JsonName(name: string): string {
    Stem(name) + ".json"
  }

  /** `a.vrp` becomes `a.json`: for a plain file name ending in `.vrp` with
      something other than dots before the extension, the extension is
      replaced. */
  lemma JsonNameReplaces(name: string, k: nat)
    requires EndsWith(name, ".vrp") && '/' !in name
    requires k < |name| - 4 && name[k] != '.'
    ensures JsonName(name) == name[..|name| - 4] + ".json"
  {
    assert name[|name| - 4..] == ".vrp";
    assert name[|name| - 4] == '.';
    assert LastIndex(name, '/') == -1;
    assert LastIndex(name, '.') == |name| - 4;
  }

  /** A name such as `.vrp` or `..vrp`, all dots before the extension, is a
      hidden file without an extension: `.json` is appended to all of it. */
  lemma JsonNameHidden(name: string)
    requires EndsWith(name, ".vrp") && '/' !in name
    requires forall k :: 0 <= k < |name| - 4 ==> name[k] == '.'
    ensures JsonName(name) == name + ".json"
  {
    assert name[|name| - 4..] == ".vrp";
    assert name[|name| - 4] == '.';
    assert LastIndex(name, '/') == -1;
    assert LastIndex(name, '.') == |name| - 4;
  }

  /** The (input, output) name pairs `batch_convert` works through: the
      directory entries ending in `.vrp`, in listing order. */
  function BatchJobs(names: seq<string>): (jobs: seq<(string, string)>)
    ensures |jobs| <= |names|
    ensures forall job :: job in jobs ==> job.0 in names && EndsWith(job.0, ".vrp") && job.1 == JsonName(job.0)
    ensures forall n :: n in names && EndsWith(n, ".vrp") ==> (n, JsonName(n)) in jobs
  {
    if names == [] then []
    else
      var init, last := names[..|names| - 1], names[|names| - 1];
      assert names == init + [last];
      BatchJobs(init) + if EndsWith(last, ".vrp") then [(last, JsonName(last))] else []
  }

  /** The jobs keep the listing order: the entries listed first are converted first. */
  lemma {:induction false} BatchJobsConcat(a: seq<string>, b: seq<string>)
    ensures BatchJobs(a + b) == BatchJobs(a) + BatchJobs(b)
    decreases |b|
  {
    if b == [] {
      assert a + b == a;
    } else {
      var init, last := b[..|b| - 1], b[|b| - 1];
      assert b == init + [last];
      assert (a + b)[..|a + b| - 1] == a + init;
      assert (a + b)[|a + b| - 1] == last;
      BatchJobsConcat(a, init);
    }
  }
}
