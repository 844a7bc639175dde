/** The resctrl schemata text of a group: printing it, parsing the L3 ids back, and the ids' memo. */
module Schemata {
  import opened Text

  const L3_PREFIX := "L3PRI:"
  const MB_PREFIX := "MBPRI:"

  // a line of this many bytes or more does not fit bufio.Scanner's buffer, and scanning stops there
  const MAX_SCAN_TOKEN := 65536

  // ---- Printing ----

  function Item(id: int, value: int): string {
    Itoa(id) + ['='] + Itoa(value)
  }

  function Items(ids: seq<int>, value: int): (r: seq<string>)
    ensures |r| == |ids|
  {
    if ids == [] then [] else Items(ids[..|ids| - 1], value) + [Item(ids[|ids| - 1], value)]
  }

  /** 0, 1, ..., n-1: the memory-bandwidth row numbers its items by position. */
  function Positions(n: nat): (r: seq<int>)
    ensures |r| == n && forall i :: 0 <= i < n ==> r[i] == i
  {
    seq(n, i => i)
  }

  function Row(prefix: string, ids: seq<int>, value: int): string {
    prefix + Join(Items(ids, value), ';')
  }

  function SchemataText(ids: seq<int>, l3Pri: int, mbPri: int): string {
    Row(L3_PREFIX, ids, l3Pri) + "\n" + (Row(MB_PREFIX, Positions(|ids|), mbPri) + "\n")
  }

  method PrintSchemata(l3Ids: seq<int>, l3Pri: int, mbPri: int) returns (content: string)
    ensures content == SchemataText(l3Ids, l3Pri, mbPri)
  {
    var l3List: seq<string>, mbList: seq<string> := [], [];
    for i := 0 to |l3Ids|
      invariant l3List == Items(l3Ids[..i], l3Pri) && mbList == Items(Positions(i), mbPri)
    {
      assert l3Ids[..i + 1][..i] == l3Ids[..i] && Positions(i + 1)[..i] == Positions(i);
      mbList := mbList + [Itoa(i) + "=" + Itoa(mbPri)];
      l3List := l3List + [Itoa(l3Ids[i]) + "=" + Itoa(l3Pri)];
    }
    assert l3Ids[..|l3Ids|] == l3Ids;
    var l3 := L3_PREFIX + Join(l3List, ';') + "\n";
    var mb := MB_PREFIX + Join(mbList, ';') + "\n";
    content := l3 + mb;
  }

  // ---- Parsing ----

  datatype Parsed = Ids(ids: seq<int>) | L3LineNotFound | InvalidFormat

  /** The text before the first c, and the text after it if there is one. */
  function Cut(s: string, c: char): (r: (string, Option<string>))
    ensures r.1.Some? ==> |r.1.value| < |s|
  {
    if s == "" then ("", None)
    else if s[0] == c then ("", Some(s[1..]))
    else
      var rest := Cut(s[1..], c);
      ([s[0]] + rest.0, rest.1)
  }

  /** A scanned line loses one trailing carriage return. */
  function DropCR(line: string): (r: string)
    ensures line == r + "\r" || (line == r && (line == "" || line[|line| - 1] != '\r'))
  {
    if line != "" && line[|line| - 1] == '\r' then line[..|line| - 1] else line
  }

  /** The first scanned line that starts with the L3 prefix. */
  function FindL3Line(content: string): Option<string>
    decreases |content|
  {
    if content == "" then None
    else
      var (line, rest) := Cut(content, '\n');
      if |line| >= MAX_SCAN_TOKEN then None
      else if L3_PREFIX <= DropCR(line) then Some(DropCR(line))
      else if rest.None? then None
      else FindL3Line(rest.value)
  }

  /** The id of one item; items without '=' or without a number are skipped. */
  function ItemId(part: string): Option<int> {
    var kv := Split(part, '=');
    if part == "" || |kv| < 2 then None else Atoi(kv[0])
  }

  /** What `f` finds in the parts, in order, skipping those in which it finds nothing. */
  function Found(parts: seq<string>, f: string -> Option<int>): seq<int> {
    if parts == [] then []
    else
      var init := Found(parts[..|parts| - 1], f);
      match f(parts[|parts| - 1])
      case Some(id) => init + [id]
      case None => init
  }

  function ItemIds(parts: seq<string>): seq<int> {
    Found(parts, ItemId)
  }

  lemma {:induction false} FoundStep(parts: seq<string>, i: nat, f: string -> Option<int>)
    requires i < |parts|
    ensures Found(parts[..i + 1], f)
            == Found(parts[..i], f) + match f(parts[i]) case Some(id) => [id] case None => []
  {
    assert parts[..i + 1][..i] == parts[..i];
  }

  lemma {:induction false} FoundInAll(parts: seq<string>, f: string -> Option<int>, ids: seq<int>)
    requires |parts| == |ids| && forall i :: 0 <= i < |ids| ==> f(parts[i]) == Some(ids[i])
    ensures Found(parts, f) == ids
  {
    if ids != [] {
      FoundInAll(parts[..|parts| - 1], f, ids[..|ids| - 1]);
    }
  }

  function ParseSchemata(content: string): Parsed {
    match FindL3Line(content)
    case None => L3LineNotFound
    case Some(line) =>
      match Cut(line, ':').1
      case None => InvalidFormat
      case Some(values) => Ids(ItemIds(Split(values, ';')))
  }

  method GetL3IdFromFile(content: string) returns (r: Parsed)
    ensures r == ParseSchemata(content)
  {
    var l3priLine := "";
    var remaining := content;
    while remaining != ""
      invariant l3priLine == "" && FindL3Line(content) == FindL3Line(remaining)
      decreases |remaining|
    {
      var (raw, rest) := Cut(remaining, '\n');
      if |raw| >= MAX_SCAN_TOKEN {
        break;
      }
      var line := DropCR(raw);
      if L3_PREFIX <= line {
        l3priLine := line;
        break;
      }
      remaining := if rest.Some? then rest.value else "";
    }
    if l3priLine == "" {
      return L3LineNotFound;
    }
    var (_, values) := Cut(l3priLine, ':');
    if values.None? {
      return InvalidFormat;
    }
    var parts := Split(values.value, ';');
    var ids: seq<int> := [];
    for i := 0 to |parts|
      invariant ids == ItemIds(parts[..i])
    {
      var part := parts[i];
      FoundStep(parts, i, ItemId);
      if part == "" {
        continue;
      }
      var kv := Split(part, '=');
      if |kv| < 2 {
        continue;
      }
      var id := Atoi(kv[0]);
      if id.Some? {
        ids := ids + [id.value];
      }
    }
    assert parts[..|parts|] == parts;
    r := Ids(ids);
  }

  // ---- What is parsed, in terms of the lines and items of the text ----

  /** Cut takes the text apart at the first c. */
  lemma {:induction false} CutCharacter(s: string, c: char)
    ensures c !in Cut(s, c).0
    ensures s == Cut(s, c).0 + match Cut(s, c).1 case Some(rest) => [c] + rest case None => ""
  {
    if s != "" && s[0] != c {
      CutCharacter(s[1..], c);
      assert s == [s[0]] + s[1..];
    } else if s != "" {
      assert s == [c] + s[1..];
    }
  }

  lemma {:induction false} SplitByCut(s: string, c: char)
    ensures Split(s, c) == match Cut(s, c).1
                           case Some(rest) => [Cut(s, c).0] + Split(rest, c)
                           case None => [Cut(s, c).0]
  {
    if s != "" && s[0] != c {
      SplitByCut(s[1..], c);
    }
  }

  /** An item counts exactly when it has an '=' and an int before the first one, and that int is its id. */
  lemma {:induction false} ItemIdExactly(part: string, id: int)
    ensures ItemId(part) == Some(id) <==> '=' in part && Atoi(Cut(part, '=').0) == Some(id)
  {
    SplitByCut(part, '=');
    CutFinds(part, '=');
  }

  /** The ids are those of the items that count, in their order. */
  lemma {:induction false} ItemIdsExactly(parts: seq<string>) returns (at: seq<nat>)
    ensures |at| == |ItemIds(parts)| && forall k, l :: 0 <= k < l < |at| ==> at[k] < at[l]
    ensures forall k :: 0 <= k < |at| ==> at[k] < |parts| && ItemId(parts[at[k]]) == Some(ItemIds(parts)[k])
    ensures forall i :: 0 <= i < |parts| && ItemId(parts[i]).Some? ==> i in at
  {
    at := [];
    if parts != [] {
      at := ItemIdsExactly(parts[..|parts| - 1]);
      if ItemId(parts[|parts| - 1]).Some? {
        at := at + [|parts| - 1];
      }
    }
  }

  /** Line k is the first with the prefix, and it and those before it fit the scanner. */
  ghost predicate IsL3Line(lines: seq<string>, k: nat) {
    && k < |lines| && "L3PRI:" <= DropCR(lines[k])
    && (forall l :: 0 <= l <= k ==> |lines[l]| < 65536)
    && (forall l :: 0 <= l < k ==> !("L3PRI:" <= DropCR(lines[l])))
  }

  lemma {:induction false} IsL3LineLater(first: string, rest: seq<string>, k: nat)
    requires |first| < 65536 && !("L3PRI:" <= DropCR(first))
    ensures IsL3Line([first] + rest, k + 1) <==> IsL3Line(rest, k)
    ensures !IsL3Line([first] + rest, 0)
  {
    var lines := [first] + rest;
    assert forall l :: 0 <= l < |rest| ==> lines[l + 1] == rest[l];
    if IsL3Line(rest, k) {
      forall l | 0 <= l <= k + 1
        ensures |lines[l]| < 65536 && (l <= k ==> !("L3PRI:" <= DropCR(lines[l])))
      {
        assert l > 0 ==> lines[l] == rest[l - 1];
      }
    }
    if IsL3Line(lines, k + 1) {
      forall l | 0 <= l <= k
        ensures |rest[l]| < 65536 && (l < k ==> !("L3PRI:" <= DropCR(rest[l])))
      {
        assert lines[l + 1] == rest[l];
      }
    }
  }

  /** The scan finds exactly that line of the text. */
  lemma {:induction false} FindL3LineExactly(content: string)
    ensures forall k: nat :: IsL3Line(Split(content, '\n'), k) ==>
      FindL3Line(content) == Some(DropCR(Split(content, '\n')[k]))
    ensures FindL3Line(content).Some? ==> exists k: nat :: IsL3Line(Split(content, '\n'), k)
    decreases |content|
  {
    var lines, first, rest := Split(content, '\n'), Cut(content, '\n').0, Cut(content, '\n').1;
    SplitByCut(content, '\n');
    if |first| >= 65536 {
      assert lines[0] == first;
    } else if "L3PRI:" <= DropCR(first) {
      assert IsL3Line(lines, 0);
    } else if rest.Some? {
      FindL3LineExactly(rest.value);
      forall k: nat
        ensures IsL3Line(lines, k) <==> k > 0 && IsL3Line(Split(rest.value, '\n'), k - 1)
      {
        IsL3LineLater(first, Split(rest.value, '\n'), if k > 0 then k - 1 else 0);
      }
      if FindL3Line(content).Some? {
        var k: nat :| IsL3Line(Split(rest.value, '\n'), k);
        assert IsL3Line(lines, k + 1);
      }
    }
  }

  /** What is read is the items after the prefix of the line found. */
  lemma {:induction false} ParseReadsLine(content: string, line: string)
    requires FindL3Line(content) == Some(line)
    ensures |line| >= 6 && ParseSchemata(content) == Ids(ItemIds(Split(line[6..], ';')))
  {
    FoundLineHasPrefix(content);
    CutL3Row(line[6..]);
    assert line == L3_PREFIX + line[6..];
  }

  /** The format error cannot happen: a line with the prefix has a colon. */
  lemma {:induction false} NeverInvalid(content: string)
    ensures !ParseSchemata(content).InvalidFormat?
  {
    FoundLineHasPrefix(content);
    var found := FindL3Line(content);
    if found.Some? {
      CutFinds(found.value, ':');
      assert found.value[5] == ':';
    }
  }

  lemma {:induction false} FoundLineHasPrefix(content: string)
    ensures FindL3Line(content).Some? ==> L3_PREFIX <= FindL3Line(content).value
    decreases |content|
  {
    if content != "" {
      var rest := Cut(content, '\n').1;
      if rest.Some? {
        FoundLineHasPrefix(rest.value);
      }
    }
  }

  lemma {:induction false} CutFinds(s: string, c: char)
    ensures Cut(s, c).1.Some? <==> c in s
  {
    if s != "" {
      CutFinds(s[1..], c);
    }
  }

  // ---- Reading back what was printed ----

  lemma {:induction false} CutPrefix(a: string, c: char, b: string)
    requires c !in a
    ensures Cut(a + [c] + b, c) == (a, Some(b))
  {
    if a == "" {
      assert a + [c] + b == [c] + b;
    } else {
      CutPrefix(a[1..], c, b);
      assert (a + [c] + b)[1..] == a[1..] + [c] + b;
      assert [a[0]] + a[1..] == a;
    }
  }

  /** Characters of a printed row after its prefix. */
  predicate RowChar(ch: char) {
    ch == '-' || IsDigit(ch) || ch == '=' || ch == ';'
  }

  lemma {:induction false} ItemChars(id: int, value: int)
    ensures forall ch :: ch in Item(id, value) ==> RowChar(ch) && ch != ';'
  {
    ItoaCharacters(id);
    ItoaCharacters(value);
  }

  lemma {:induction false} ItemsChars(ids: seq<int>, value: int)
    ensures forall p :: p in Items(ids, value) ==> p != "" && ';' !in p && forall ch :: ch in p ==> RowChar(ch)
  {
    if ids != [] {
      ItemsChars(ids[..|ids| - 1], value);
      ItemChars(ids[|ids| - 1], value);
    }
  }

  lemma {:induction false} JoinedChars(parts: seq<string>)
    requires forall p :: p in parts ==> forall ch :: ch in p ==> RowChar(ch)
    ensures forall ch :: ch in Join(parts, ';') ==> RowChar(ch)
    decreases |parts|
  {
    if |parts| > 1 {
      assert forall p :: p in parts[1..] ==> p in parts;
      JoinedChars(parts[1..]);
      assert parts[0] in parts;
      assert Join(parts, ';') == parts[0] + [';'] + Join(parts[1..], ';');
    } else if |parts| == 1 {
      assert parts[0] in parts;
    }
  }

  lemma {:induction false} RowChars(ids: seq<int>, value: int)
    ensures forall ch :: ch in Join(Items(ids, value), ';') ==> RowChar(ch)
  {
    ItemsChars(ids, value);
    JoinedChars(Items(ids, value));
  }

  lemma {:induction false} ItemIdOfItem(id: int, value: int)
    requires IsInt(id)
    ensures ItemId(Item(id, value)) == Some(id)
  {
    ItoaCharacters(id);
    SplitPrefix(Itoa(id), Itoa(value), '=');
    AtoiItoa(id);
  }

  lemma {:induction false} ItemIdsOfItems(ids: seq<int>, value: int)
    requires forall i :: 0 <= i < |ids| ==> IsInt(ids[i])
    ensures ItemIds(Items(ids, value)) == ids
  {
    forall i | 0 <= i < |ids|
      ensures ItemId(Items(ids, value)[i]) == Some(ids[i])
    {
      ItemsAt(ids, value, i);
      ItemIdOfItem(ids[i], value);
    }
    FoundInAll(Items(ids, value), ItemId, ids);
  }

  /** Splitting a printed row gives its items; an empty row gives one empty item, which parsing skips. */
  lemma {:induction false} RowItems(ids: seq<int>, value: int)
    ensures Split(Join(Items(ids, value), ';'), ';') == if ids == [] then [""] else Items(ids, value)
  {
    ItemsChars(ids, value);
    SplitJoin(Items(ids, value), ';');
  }

  lemma {:induction false} RowHasNo(prefix: string, ids: seq<int>, value: int, c: char)
    requires c !in prefix && !RowChar(c)
    ensures c !in Row(prefix, ids, value)
  {
    RowChars(ids, value);
  }

  lemma {:induction false} NothingToDrop(line: string)
    requires '\r' !in line
    ensures DropCR(line) == line
  {
    if line != "" {
      assert line[|line| - 1] in line;
    }
  }

  lemma {:induction false} CutL3Row(body: string)
    ensures Cut(L3_PREFIX + body, ':').1 == Some(body)
  {
    CutPrefix("L3PRI", ':', body);
    assert "L3PRI" + [':'] + body == L3_PREFIX + body;
  }

  lemma {:induction false} L3RowIsOneLine(ids: seq<int>, value: int)
    ensures '\n' !in Row(L3_PREFIX, ids, value)
    ensures DropCR(Row(L3_PREFIX, ids, value)) == Row(L3_PREFIX, ids, value)
    ensures Cut(Row(L3_PREFIX, ids, value), ':').1 == Some(Join(Items(ids, value), ';'))
  {
    RowHasNo(L3_PREFIX, ids, value, '\n');
    RowHasNo(L3_PREFIX, ids, value, '\r');
    NothingToDrop(Row(L3_PREFIX, ids, value));
    CutL3Row(Join(Items(ids, value), ';'));
  }

  /** The first line of a text is the one looked for when it has the prefix and fits the scanner. */
  lemma {:induction false} FirstLineFound(line: string, rest: string)
    requires '\n' !in line && DropCR(line) == line && L3_PREFIX <= line
    ensures FindL3Line(line + "\n" + rest) == if |line| < MAX_SCAN_TOKEN then Some(line) else None
  {
    CutPrefix(line, '\n', rest);
    assert line + "\n" + rest == line + ['\n'] + rest;
  }

  /** Parsing the printed text gives back the same ids in the same order exactly when the L3 row fits the scanner. */
  lemma {:induction false} RoundTrip(ids: seq<int>, l3Pri: int, mbPri: int)
    requires forall i :: 0 <= i < |ids| ==> IsInt(ids[i])
    ensures ParseSchemata(SchemataText(ids, l3Pri, mbPri))
            == if |Row(L3_PREFIX, ids, l3Pri)| < 65536 then Ids(ids) else L3LineNotFound
  {
    L3RowIsOneLine(ids, l3Pri);
    FirstLineFound(Row(L3_PREFIX, ids, l3Pri), Row(MB_PREFIX, Positions(|ids|), mbPri) + "\n");
    RowItems(ids, l3Pri);
    ItemIdsOfItems(ids, l3Pri);
    NoItemNoId();
  }

  /** Every item has at least three characters, and all but the last are followed by a semicolon. */
  lemma {:induction false} RowLength(parts: seq<string>)
    requires forall i :: 0 <= i < |parts| ==> |parts[i]| >= 3
    ensures |Join(parts, ';')| >= 4 * |parts| - 1
    decreases |parts|
  {
    if |parts| > 1 {
      RowLength(parts[1..]);
      assert |Join(parts, ';')| == |parts[0]| + 1 + |Join(parts[1..], ';')|;
    }
  }

  /** A machine with 16383 or more L3 ids, whatever they and the priorities are, cannot read its file back. */
  lemma {:induction false} ManyIdsAreUnreadable(ids: seq<int>, l3Pri: int, mbPri: int)
    requires |ids| >= 16383
    ensures ParseSchemata(SchemataText(ids, l3Pri, mbPri)) == L3LineNotFound
  {
    L3RowIsOneLine(ids, l3Pri);
    FirstLineFound(Row(L3_PREFIX, ids, l3Pri), Row(MB_PREFIX, Positions(|ids|), mbPri) + "\n");
    forall i | 0 <= i < |ids|
      ensures |Items(ids, l3Pri)[i]| >= 3
    {
      ItemsAt(ids, l3Pri, i);
      ItoaCharacters(ids[i]);
      ItoaCharacters(l3Pri);
    }
    RowLength(Items(ids, l3Pri));
  }

  lemma {:induction false} NoItemNoId()
    ensures ItemIds([""]) == []
  {
    assert [""][..0] == [];
  }

  // ---- Both rows, with their priorities ----

  function ItemPair(part: string): Option<(int, int)> {
    var kv := Split(part, '=');
    if |kv| != 2 then None
    else match (IntegerOf(kv[0]), IntegerOf(kv[1]))
      case (Some(id), Some(value)) => Some((id, value))
      case _ => None
  }

  lemma {:induction false} ItemPairOfItem(id: int, value: int)
    ensures ItemPair(Item(id, value)) == Some((id, value))
  {
    ItoaCharacters(id);
    ItoaCharacters(value);
    SplitPrefix(Itoa(id), Itoa(value), '=');
    SplitPrefix(Itoa(value), "", '=');
    IntegerOfItoa(id);
    IntegerOfItoa(value);
  }

  lemma {:induction false} ItemsAt(ids: seq<int>, value: int, i: nat)
    requires i < |ids|
    ensures Items(ids, value)[i] == Item(ids[i], value)
  {
    if i < |ids| - 1 {
      ItemsAt(ids[..|ids| - 1], value, i);
    }
  }

  lemma {:induction false} TwoLines(a: string, b: string)
    requires '\n' !in a && '\n' !in b
    ensures Split(a + "\n" + (b + "\n"), '\n') == [a, b, ""]
  {
    SplitPrefix(b, "", '\n');
    SplitPrefix(a, b + "\n", '\n');
    assert a + "\n" + (b + "\n") == a + ['\n'] + (b + "\n");
    assert b + "\n" == b + ['\n'] + "";
  }

  /** The text is two rows: L3 ids with the L3 priority, then positions with the bandwidth priority. */
  lemma {:induction false} RowsOfText(ids: seq<int>, l3Pri: int, mbPri: int)
    ensures Split(SchemataText(ids, l3Pri, mbPri), '\n')
            == [Row(L3_PREFIX, ids, l3Pri), Row(MB_PREFIX, Positions(|ids|), mbPri), ""]
    ensures forall i :: 0 <= i < |ids| ==>
      && ItemPair(Items(ids, l3Pri)[i]) == Some((ids[i], l3Pri))
      && ItemPair(Items(Positions(|ids|), mbPri)[i]) == Some((i, mbPri))
  {
    RowHasNo(L3_PREFIX, ids, l3Pri, '\n');
    RowHasNo(MB_PREFIX, Positions(|ids|), mbPri, '\n');
    TwoLines(Row(L3_PREFIX, ids, l3Pri), Row(MB_PREFIX, Positions(|ids|), mbPri));
    forall i | 0 <= i < |ids|
      ensures ItemPair(Items(ids, l3Pri)[i]) == Some((ids[i], l3Pri))
      ensures ItemPair(Items(Positions(|ids|), mbPri)[i]) == Some((i, mbPri))
    {
      ItemsAt(ids, l3Pri, i);
      ItemsAt(Positions(|ids|), mbPri, i);
      ItemPairOfItem(ids[i], l3Pri);
      ItemPairOfItem(i, mbPri);
    }
  }

  lemma {:induction false} TwoItems(a: int, b: int, value: int)
    ensures Join(Items([a, b], value), ';') == Item(a, value) + ";" + Item(b, value)
  {
    assert [a, b][..1] == [a] && [a][..0] == [];
    assert Items([a], value) == [Item(a, value)];
    var items := Items([a, b], value);
    assert items == [Item(a, value), Item(b, value)];
    assert items[1..] == [Item(b, value)];
  }

  lemma {:induction false} OneDigit(n: nat)
    requires n < 10
    ensures Itoa(n) == [('0' as int + n) as char]
  {
  }

  lemma {:induction false} ItemTexts()
    ensures Item(0, 3) == "0=3" && Item(1, 3) == "1=3" && Item(0, 5) == "0=5" && Item(1, 5) == "1=5"
  {
    OneDigit(0);
    OneDigit(1);
    OneDigit(3);
    OneDigit(5);
  }

  lemma {:induction false} L3RowOfTwoIds()
    ensures Row(L3_PREFIX, [0, 1], 3) == "L3PRI:0=3;1=3"
  {
    ItemTexts();
    TwoItems(0, 1, 3);
  }

  lemma {:induction false} MBRowOfTwoIds()
    ensures Row(MB_PREFIX, [0, 1], 5) == "MBPRI:0=5;1=5"
  {
    ItemTexts();
    TwoItems(0, 1, 5);
  }

  /** The instance of two ids with priorities 3 and 5. */
  lemma {:induction false} TextOfTwoIds()
    ensures SchemataText([0, 1], 3, 5) == "L3PRI:0=3;1=3\nMBPRI:0=5;1=5\n"
  {
    L3RowOfTwoIds();
    MBRowOfTwoIds();
    assert Positions(2) == [0, 1];
  }

  // ---- The memo and the group files ----

  /** The process-wide memo of L3 ids and the schemata file of every group directory. */
  datatype State = State(cache: seq<int>, files: map<string, string>)

  /** One call; `initial` is what a new group's file holds when the directory has just been made. */
  datatype Call = Call(dir: string, l3Pri: int, mbPri: int, initial: string)

  function WithDir(st: State, c: Call): State {
    if c.dir in st.files then st else st.(files := st.files[c.dir := c.initial])
  }

  function AfterCall(st: State, c: Call): (r: (State, bool)) {
    var made := WithDir(st, c);
    var parsed := ParseSchemata(made.files[c.dir]);
    if made.cache == [] && !parsed.Ids? then (made, false)
    else
      var ids := if made.cache == [] then parsed.ids else made.cache;
      (State(ids, made.files[c.dir := SchemataText(ids, c.l3Pri, c.mbPri)]), true)
  }

  function AfterCalls(st: State, calls: seq<Call>): State {
    if calls == [] then st else AfterCall(AfterCalls(st, calls[..|calls| - 1]), calls[|calls| - 1]).0
  }

  function FileOf(st: State, dir: string): Option<string> {
    if dir in st.files then Some(st.files[dir]) else None
  }

  /** The text a call finds: that of the group's file, or what a new group's file holds. */
  function TextFound(st: State, c: Call): string {
    if c.dir in st.files then st.files[c.dir] else c.initial
  }

  /**
   One call from any state: it succeeds exactly when ids are known or the text found has them; then the group's file is
   the text of those ids with the call's priorities, otherwise it is the text found; no other file changes.
   */
  lemma {:induction false} OneCall(st: State, c: Call)
    ensures var (after, ok) := AfterCall(st, c);
            var parsed := ParseSchemata(TextFound(st, c));
            && (ok <==> st.cache != [] || parsed.Ids?)
            && after.cache == (if st.cache != [] then st.cache else if parsed.Ids? then parsed.ids else [])
            && FileOf(after, c.dir) == Some(if ok && st.cache != [] then SchemataText(st.cache, c.l3Pri, c.mbPri)
                                            else if ok then SchemataText(parsed.ids, c.l3Pri, c.mbPri)
                                            else TextFound(st, c))
            && forall dir :: dir != c.dir ==> FileOf(after, dir) == FileOf(st, dir)
  {
  }

  class Resctrl {
    var cache: seq<int>
    var files: map<string, string>

    ghost function Current(): State
      reads this
    {
      State(cache, files)
    }

    constructor (files: map<string, string>)
      ensures Current() == State([], files)
    {
      cache, this.files := [], files;
    }

    method GetL3Id(dir: string) returns (r: Parsed)
      requires dir in files
      modifies `cache
      ensures old(cache) != [] ==> cache == old(cache) && r == Ids(cache)
      ensures old(cache) == [] ==> r == ParseSchemata(files[dir]) && cache == if r.Ids? then r.ids else []
    {
      if |cache| == 0 {
        r := GetL3IdFromFile(files[dir]);
        if !r.Ids? {
          return;
        }
        cache := r.ids;
      }
      r := Ids(cache);
    }

    method SetGroupQos(c: Call) returns (ok: bool)
      modifies this
      ensures (Current(), ok) == AfterCall(old(Current()), c)
    {
      if c.dir !in files {
        files := files[c.dir := c.initial];
      }
      var l3Ids := GetL3Id(c.dir);
      if !l3Ids.Ids? {
        return false;
      }
      var content := PrintSchemata(l3Ids.ids, c.l3Pri, c.mbPri);
      files := files[c.dir := content];
      ok := true;
    }
  }

  /** The latest call for a directory. */
  function LastCall(calls: seq<Call>, dir: string): Option<Call> {
    if calls == [] then None
    else if calls[|calls| - 1].dir == dir then Some(calls[|calls| - 1])
    else LastCall(calls[..|calls| - 1], dir)
  }

  /**
   Once ids are known they never change, every file written holds them with its latest priorities, and no other file
   is touched.
   */
  lemma {:induction false} MemoIsStable(st: State, calls: seq<Call>)
    requires st.cache != []
    ensures AfterCalls(st, calls).cache == st.cache
    ensures forall dir ::
      FileOf(AfterCalls(st, calls), dir)
      == match LastCall(calls, dir)
         case Some(c) => Some(SchemataText(st.cache, c.l3Pri, c.mbPri))
         case None => FileOf(st, dir)
  {
    if calls != [] {
      MemoIsStable(st, calls[..|calls| - 1]);
    }
  }

  lemma {:induction false} KnownIdsAreWritten(st: State, c: Call)
    requires AfterCall(st, c).0.cache != []
    ensures FileOf(AfterCall(st, c).0, c.dir) == Some(SchemataText(AfterCall(st, c).0.cache, c.l3Pri, c.mbPri))
  {
  }

  lemma {:induction false} NewIdsAreRead(st: State, c: Call)
    requires st.cache == [] && AfterCall(st, c).0.cache != []
    ensures ParseSchemata(TextFound(st, c)) == Ids(AfterCall(st, c).0.cache)
  {
    OneCall(st, c);
  }

  lemma {:induction false} KnownIdsStay(st: State, c: Call)
    requires st.cache != []
    ensures AfterCall(st, c).0.cache == st.cache
  {
  }

  lemma {:induction false} OtherFileStays(st: State, c: Call, dir: string)
    requires dir != c.dir
    ensures FileOf(AfterCall(st, c).0, dir) == FileOf(st, dir)
  {
  }

  lemma {:induction false} PrefixOfPrefix(st: State, calls: seq<Call>, i: nat)
    requires i < |calls|
    ensures AfterCalls(st, calls[..|calls| - 1][..i]) == AfterCalls(st, calls[..i])
  {
    assert calls[..|calls| - 1][..i] == calls[..i];
  }

  /** From any start, also without ids: what is known after the i-th call stays known. */
  lemma {:induction false} LearntIdsStay(st: State, calls: seq<Call>, i: nat)
    requires i < |calls| && AfterCalls(st, calls[..i + 1]).cache != []
    ensures AfterCalls(st, calls).cache == AfterCalls(st, calls[..i + 1]).cache
  {
    if i == |calls| - 1 {
      assert calls[..i + 1] == calls;
    } else {
      var init := calls[..|calls| - 1];
      PrefixOfPrefix(st, calls, i + 1);
      LearntIdsStay(st, init, i);
      KnownIdsStay(AfterCalls(st, init), calls[|calls| - 1]);
    }
  }

  /** No call after the i-th is for its directory. */
  ghost predicate LatestForDir(calls: seq<Call>, i: nat) {
    i < |calls| && forall j :: i < j < |calls| ==> calls[j].dir != calls[i].dir
  }

  /** And if no later call is for its directory, that one's file holds the ids with the i-th call's priorities. */
  lemma {:induction false} FilesHoldLearntIds(st: State, calls: seq<Call>, i: nat)
    requires LatestForDir(calls, i) && AfterCalls(st, calls[..i + 1]).cache != []
    ensures FileOf(AfterCalls(st, calls), calls[i].dir)
            == Some(SchemataText(AfterCalls(st, calls[..i + 1]).cache, calls[i].l3Pri, calls[i].mbPri))
  {
    var init := calls[..|calls| - 1];
    if i == |calls| - 1 {
      assert calls[..i + 1] == calls;
      KnownIdsAreWritten(AfterCalls(st, init), calls[i]);
    } else {
      PrefixOfPrefix(st, calls, i + 1);
      assert LatestForDir(init, i);
      FilesHoldLearntIds(st, init, i);
      OtherFileStays(AfterCalls(st, init), calls[|calls| - 1], calls[i].dir);
    }
  }

  /** Ids not known at the start were read by some call from the text it found, and they are all of what it read. */
  lemma {:induction false} IdsWereRead(st: State, calls: seq<Call>) returns (i: nat)
    requires st.cache == [] && AfterCalls(st, calls).cache != []
    ensures i < |calls| && AfterCalls(st, calls[..i]).cache == []
    ensures ParseSchemata(TextFound(AfterCalls(st, calls[..i]), calls[i])) == Ids(AfterCalls(st, calls).cache)
  {
    var init := calls[..|calls| - 1];
    if AfterCalls(st, init).cache == [] {
      i := |calls| - 1;
      NewIdsAreRead(AfterCalls(st, init), calls[i]);
    } else {
      i := IdsWereRead(st, init);
      PrefixOfPrefix(st, calls, i);
      KnownIdsStay(AfterCalls(st, init), calls[|calls| - 1]);
    }
  }

  /** A process that starts without ids and reads a file so written learns the same ids exactly when its row fits. */
  lemma {:induction false} RestartLearnsSameIds(st: State, calls: seq<Call>, dir: string, c: Call)
    requires st.cache != [] && forall i :: 0 <= i < |st.cache| ==> IsInt(st.cache[i])
    requires LastCall(calls, dir).Some? && c.dir == dir
    ensures AfterCall(State([], AfterCalls(st, calls).files), c).0.cache == st.cache
            <==> |Row(L3_PREFIX, st.cache, LastCall(calls, dir).value.l3Pri)| < MAX_SCAN_TOKEN
  {
    MemoIsStable(st, calls);
    var last := LastCall(calls, dir).value;
    RoundTrip(st.cache, last.l3Pri, last.mbPri);
  }
}
