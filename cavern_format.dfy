/** The text form of a cavern that Cavern.serialize writes and
    Cavern.deserialize reads back (game/Cavern.java:404-476): a header line
    "rows:cols,trgt:targetId", then one line per node,
    "id,row,col,gold,TYPE=otherId-length,otherId-length,...". A cavern is
    seen here through what serialize prints of it (CavernRec); what
    deserialize builds is seen through the maps it fills (Loaded). */
module CavernFormat {
  import opened Wrappers
  import opened Tiles
  import JavaInt

  // ---------------------------------------------------------------------
  // Decimal numbers: string concatenation of an int or a long, and
  // Integer.parseInt / Long.parseLong

  predicate IsDigit(ch: char)
  {
    '0' <= ch <= '9'
  }

  predicate AllDigits(s: string)
  {
    forall i :: 0 <= i < |s| ==> IsDigit(s[i])
  }

  function DigitChar(d: int): (ch: char)
    requires 0 <= d < 10
    ensures IsDigit(ch) && ch as int - '0' as int == d
  {
    ('0' as int + d) as char
  }

  /** The decimal digits of n, most significant first, without leading
      zeros. */
  function NatString(n: nat): (r: string)
    ensures |r| > 0 && AllDigits(r)
    decreases n
  {
    if n < 10 then [DigitChar(n)] else NatString(n / 10) + [DigitChar(n % 10)]
  }

  /** The number a string of decimal digits denotes. */
  function DigitsValue(s: string): nat
    requires AllDigits(s)
  {
    if s == [] then 0 else 10 * DigitsValue(s[..|s| - 1]) + (s[|s| - 1] as int - '0' as int)
  }

  /** How Java prints an int or a long: its digits, after a minus sign when
      it is negative. */
  function IntString(x: int): (r: string)
    ensures |r| > 0 && (r[0] == '-' <==> x < 0)
  {
    if x < 0 then "-" + NatString(-x) else NatString(x)
  }

  /** Whether s is a sign, '-' or '+', or none, followed by at least one
      decimal digit: the strings parseInt and parseLong accept when the
      value fits. */
  predicate Numeral(s: string)
  {
    if |s| > 0 && (s[0] == '-' || s[0] == '+') then |s| > 1 && AllDigits(s[1..])
    else |s| > 0 && AllDigits(s)
  }

  /** The value a numeral denotes: its digits, negated after a minus sign. */
  function NumeralValue(s: string): int
    requires Numeral(s)
  {
    var n: int := if s[0] == '-' || s[0] == '+' then DigitsValue(s[1..]) else DigitsValue(s);
    if s[0] == '-' then -n else n
  }

  /** Integer.parseInt (with the int range as [lo, hi]) and Long.parseLong
      (with the long range): success exactly on a numeral whose value lies
      in [lo, hi], with that value; NumberFormatException otherwise. */
  function ParseNumber(s: string, lo: int, hi: int): (r: Result<int>)
    ensures r.Ok? <==> Numeral(s) && lo <= NumeralValue(s) <= hi
    ensures r.Ok? ==> r.value == NumeralValue(s)
    ensures r.Err? ==> r.error == NumberFormat
    ensures r.Ok? && r.value < 0 ==> s[0] == '-'
  {
    var signed := |s| > 0 && (s[0] == '-' || s[0] == '+');
    var digits := if signed then s[1..] else s;
    if digits == [] || !AllDigits(digits) then Err(NumberFormat)
    else
      var n: int := DigitsValue(digits);
      var v := if signed && s[0] == '-' then -n else n;
      if lo <= v <= hi then Ok(v) else Err(NumberFormat)
  }

  /** Integer.parseInt: a numeral with an int value. */
  function ParseInt(s: string): (r: Result<int>)
    ensures r.Ok? ==> JavaInt.IsInt(r.value)
    ensures r.Err? ==> r.error == NumberFormat
  {
    ParseNumber(s, JavaInt.INT_MIN, JavaInt.INT_MAX)
  }

  /** Long.parseLong: a numeral with a long value. */
  function ParseLong(s: string): (r: Result<int>)
    ensures r.Ok? ==> JavaInt.IsLong(r.value)
    ensures r.Err? ==> r.error == NumberFormat
  {
    ParseNumber(s, JavaInt.LONG_MIN, JavaInt.LONG_MAX)
  }

  /** What parseInt and parseLong reject whatever the range: the empty
      string, a lone sign, and a string with a character that is neither a
      digit nor a leading sign. */
  lemma ParseRejects(s: string, lo: int, hi: int)
    ensures s == [] ==> ParseNumber(s, lo, hi).Err?
    ensures s == "-" || s == "+" ==> ParseNumber(s, lo, hi).Err?
    ensures (exists i :: 0 <= i < |s| && !IsDigit(s[i]) && !(i == 0 && (s[i] == '-' || s[i] == '+'))) ==>
      ParseNumber(s, lo, hi).Err?
  {
    if i :| 0 <= i < |s| && !IsDigit(s[i]) && !(i == 0 && (s[i] == '-' || s[i] == '+')) {
      if i > 0 {
        assert s[1..][i - 1] == s[i];
      }
    }
  }

  /** The digits of n denote n. */
  lemma {:induction false} NatStringValue(n: nat)
    ensures DigitsValue(NatString(n)) == n
    decreases n
  {
    if n >= 10 {
      var s := NatString(n);
      assert s[..|s| - 1] == NatString(n / 10);
      NatStringValue(n / 10);
    }
  }

  /** Parsing reads back what printing wrote, for every value in range. */
  lemma ParsePrinted(x: int, lo: int, hi: int)
    requires lo <= x <= hi
    ensures ParseNumber(IntString(x), lo, hi) == Ok(x)
  {
    if x < 0 {
      NatStringValue(-x);
      assert IntString(x)[1..] == NatString(-x);
    } else {
      NatStringValue(x);
    }
  }

  lemma ParseIntPrinted(x: int)
    requires JavaInt.IsInt(x)
    ensures ParseInt(IntString(x)) == Ok(x)
  {
    ParsePrinted(x, JavaInt.INT_MIN, JavaInt.INT_MAX);
  }

  lemma ParseLongPrinted(x: int)
    requires JavaInt.IsLong(x)
    ensures ParseLong(IntString(x)) == Ok(x)
  {
    ParsePrinted(x, JavaInt.LONG_MIN, JavaInt.LONG_MAX);
  }

  /** A printed number is digits, after a minus sign when it is negative; so
      it holds none of the separators of the format, and no minus sign when
      it is not negative. */
  lemma PrintedChars(x: int)
    ensures forall i :: 0 < i < |IntString(x)| ==> IsDigit(IntString(x)[i])
    ensures ',' !in IntString(x) && ':' !in IntString(x) && '=' !in IntString(x)
    ensures x >= 0 ==> '-' !in IntString(x)
  {
    var r := IntString(x);
    if x < 0 {
      var d := NatString(-x);
      assert r == "-" + d;
      forall i | 0 < i < |r|
        ensures IsDigit(r[i])
      {
        assert r[i] == d[i - 1];
      }
    }
  }

  // ---------------------------------------------------------------------
  // String.split, Collectors.joining, String.indexOf and array indexing

  /** s cut at every occurrence of c: the pieces between the separators,
      empty ones included, one more than there are separators. */
  function Pieces(s: string, c: char): (r: seq<string>)
    ensures |r| >= 1
    ensures c !in s ==> r == [s]
    decreases |s|
  {
    if s == [] then [[]]
    else
      var rest := Pieces(s[1..], c);
      if s[0] == c then [[]] + rest
      else
        assert c !in s ==> s == [s[0]] + s[1..];
        [[s[0]] + rest[0]] + rest[1..]
  }

  /** p without its trailing empty strings. */
  function DropEmptyTail(p: seq<string>): (r: seq<string>)
    ensures |r| <= |p| && r == p[..|r|]
    ensures r != [] ==> r[|r| - 1] != []
    ensures forall i :: |r| <= i < |p| ==> p[i] == []
    decreases |p|
  {
    if p != [] && p[|p| - 1] == [] then
      var q := p[..|p| - 1];
      var r := DropEmptyTail(q);
      assert forall i :: 0 <= i < |q| ==> q[i] == p[i];
      r
    else p
  }

  /** s.split(c) for a separator that is not a regular-expression
      metacharacter: the whole of s when c does not occur in it, and
      otherwise the pieces with the trailing empty ones removed. */
  function Split(s: string, c: char): (r: seq<string>)
    ensures c !in s ==> r == [s]
  {
    var p := Pieces(s, c);
    if |p| == 1 then p else DropEmptyTail(p)
  }

  /** The parts with c between consecutive ones. */
  function Join(parts: seq<string>, c: char): string
  {
    if parts == [] then []
    else if |parts| == 1 then parts[0]
    else parts[0] + [c] + Join(parts[1..], c)
  }

  /** A first piece free of c stays glued to what follows it. */
  lemma {:induction false} PiecesPrefix(a: string, rest: string, c: char)
    requires c !in a
    ensures Pieces(a + rest, c) == [a + Pieces(rest, c)[0]] + Pieces(rest, c)[1..]
    decreases |a|
  {
    if a == [] {
      assert a + rest == rest;
      assert a + Pieces(rest, c)[0] == Pieces(rest, c)[0];
    } else {
      var p := Pieces(rest, c);
      assert (a + rest)[0] == a[0] && a[0] != c;
      assert (a + rest)[1..] == a[1..] + rest;
      PiecesPrefix(a[1..], rest, c);
      var q := Pieces(a[1..] + rest, c);
      assert q[0] == a[1..] + p[0] && q[1..] == p[1..];
      assert Pieces(a + rest, c) == [[a[0]] + q[0]] + q[1..];
      assert [a[0]] + (a[1..] + p[0]) == a + p[0];
    }
  }

  /** Cutting a join of parts free of c gives the parts back. */
  lemma {:induction false} PiecesJoin(parts: seq<string>, c: char)
    requires |parts| >= 1 && forall i :: 0 <= i < |parts| ==> c !in parts[i]
    ensures Pieces(Join(parts, c), c) == parts
    decreases |parts|
  {
    if |parts| == 1 {
      PiecesPrefix(parts[0], [], c);
      assert parts[0] + [] == parts[0];
    } else {
      var tail := Join(parts[1..], c);
      PiecesJoin(parts[1..], c);
      assert Join(parts, c) == parts[0] + ([c] + tail);
      PiecesPrefix(parts[0], [c] + tail, c);
      assert ([c] + tail)[1..] == tail;
      assert parts[0] + [] == parts[0];
      assert [parts[0]] + parts[1..] == parts;
    }
  }

  /** split undoes a join of parts free of c whose last part is not empty
      (or that has a single part). */
  lemma SplitJoin(parts: seq<string>, c: char)
    requires |parts| >= 1 && forall i :: 0 <= i < |parts| ==> c !in parts[i]
    requires |parts| == 1 || parts[|parts| - 1] != []
    ensures Split(Join(parts, c), c) == parts
  {
    PiecesJoin(parts, c);
  }

  /** A character other than c lies in a join only if it lies in a part. */
  lemma {:induction false} JoinChars(parts: seq<string>, c: char, d: char)
    requires d != c && forall i :: 0 <= i < |parts| ==> d !in parts[i]
    ensures d !in Join(parts, c)
    decreases |parts|
  {
    if |parts| > 1 {
      JoinChars(parts[1..], c, d);
    }
  }

  /** s.indexOf(c): the first position of c in s, or -1. */
  function IndexOf(s: string, c: char): (r: int)
    ensures -1 <= r < |s|
    ensures r >= 0 ==> s[r] == c && c !in s[..r]
    ensures r == -1 <==> c !in s
  {
    if s == [] then -1
    else if s[0] == c then 0
    else
      var k := IndexOf(s[1..], c);
      if k < 0 then -1
      else
        assert s[..k + 1] == [s[0]] + s[1..][..k];
        k + 1
  }

  /** The first c in a + [c] + b is the one right after a, when a has
      none. */
  lemma {:induction false} IndexOfAfter(a: string, c: char, b: string)
    requires c !in a
    ensures IndexOf(a + [c] + b, c) == |a| && (a + [c] + b)[..|a|] == a
    decreases |a|
  {
    var s := a + [c] + b;
    assert s[..|a|] == a;
    if a != [] {
      assert s[1..] == a[1..] + [c] + b;
      IndexOfAfter(a[1..], c, b);
    }
  }

  /** parts[k], or ArrayIndexOutOfBoundsException. */
  function At(parts: seq<string>, k: nat): (r: Result<string>)
    ensures r.Ok? <==> k < |parts|
    ensures r.Ok? ==> r.value == parts[k]
    ensures r.Err? ==> r.error == IndexOutOfBounds
  {
    if k < |parts| then Ok(parts[k]) else Err(IndexOutOfBounds)
  }

  // ---------------------------------------------------------------------
  // Tile types: Type.name() and Type.valueOf

  function TypeName(t: TileType): (r: string)
    ensures r != [] && forall i :: 0 <= i < |r| ==> 'A' <= r[i] <= 'Z'
  {
    match t
    case FLOOR => "FLOOR"
    case ORB => "ORB"
    case ENTRANCE => "ENTRANCE"
    case WALL => "WALL"
  }

  /** Type.valueOf(s): the type named s; IllegalArgumentException for any
      other string. */
  function TypeValueOf(s: string): (r: Result<TileType>)
    ensures r.Ok? ==> TypeName(r.value) == s
    ensures forall t :: TypeName(t) == s ==> r == Ok(t)
    ensures r.Err? ==> r.error == IllegalArgument
  {
    if s == "FLOOR" then Ok(FLOOR)
    else if s == "ORB" then Ok(ORB)
    else if s == "ENTRANCE" then Ok(ENTRANCE)
    else if s == "WALL" then Ok(WALL)
    else Err(IllegalArgument)
  }

  /** A type name holds none of the separators of the format. */
  lemma NameChars(t: TileType)
    ensures ',' !in TypeName(t) && ':' !in TypeName(t) && '=' !in TypeName(t)
  {
    var r := TypeName(t);
    forall i | 0 <= i < |r|
      ensures r[i] != ',' && r[i] != ':' && r[i] != '='
    {
    }
  }

  // ---------------------------------------------------------------------
  // The records

  /** An exit as serialize prints it: the id at its other end and its
      length. */
  datatype Exit = Exit(other: int, length: int)

  /** A node as serialize prints it: id, the tile's row, column, current gold
      and type, and the exits in insertion order. */
  datatype NodeRec = NodeRec(id: int, row: int, col: int, gold: int, ttype: TileType, exits: seq<Exit>)

  /** A cavern as serialize prints it, its nodes in the order of iteration
      over its node set. */
  datatype CavernRec = CavernRec(rows: int, cols: int, target: int, nodes: seq<NodeRec>)

  /** The tile deserialize makes for a node line. */
  datatype TileRec = TileRec(row: int, col: int, gold: int, ttype: TileType)

  /** What deserialize builds: the dimensions, the target id, the tile of each
      id (idToNode) and the exits each id collected. */
  datatype Loaded = Loaded(rows: int, cols: int, target: int, tiles: map<int, TileRec>, exits: map<int, seq<Exit>>)

  // ---------------------------------------------------------------------
  // serialize

  /** "rows:cols" */
  function DimsText(rows: int, cols: int): string
  {
    Join([IntString(rows), IntString(cols)], ':')
  }

  /** "trgt:targetId" */
  function TargetText(target: int): string
  {
    Join(["trgt", IntString(target)], ':')
  }

  /** "rows:cols,trgt:targetId" */
  function HeaderLine(rows: int, cols: int, target: int): string
  {
    Join([DimsText(rows, cols), TargetText(target)], ',')
  }

  /** "otherId-length" */
  function ExitText(x: Exit): string
  {
    Join([IntString(x.other), IntString(x.length)], '-')
  }

  function ExitTexts(xs: seq<Exit>): (r: seq<string>)
    ensures |r| == |xs| && forall i :: 0 <= i < |xs| ==> r[i] == ExitText(xs[i])
  {
    if xs == [] then [] else [ExitText(xs[0])] + ExitTexts(xs[1..])
  }

  /** The exits joined with ",". */
  function ExitsText(xs: seq<Exit>): string
  {
    Join(ExitTexts(xs), ',')
  }

  /** The fields of a node line before its "=". */
  function InfoFields(n: NodeRec): seq<string>
  {
    [IntString(n.id), IntString(n.row), IntString(n.col), IntString(n.gold), TypeName(n.ttype)]
  }

  /** "id,row,col,gold,TYPE" */
  function NodeInfo(n: NodeRec): string
  {
    Join(InfoFields(n), ',')
  }

  function NodeLine(n: NodeRec): (r: string)
    ensures '=' in r
    ensures n.exits == [] ==> |r| > 0 && r[|r| - 1] == '='
  {
    NodeInfo(n) + "=" + ExitsText(n.exits)
  }

  /** The lines serialize returns for c. */
  function Lines(c: CavernRec): (r: seq<string>)
    ensures |r| == |c.nodes| + 1
  {
    [HeaderLine(c.rows, c.cols, c.target)] + seq(|c.nodes|, i requires 0 <= i < |c.nodes| => NodeLine(c.nodes[i]))
  }

  /** serialize(): the header, then one line per node. */
  method Serialize(c: CavernRec) returns (lines: seq<string>)
    ensures lines == Lines(c)
  {
    lines := [HeaderLine(c.rows, c.cols, c.target)];
    var i := 0;
    while i < |c.nodes|
      invariant 0 <= i <= |c.nodes| && |lines| == i + 1 && lines[0] == HeaderLine(c.rows, c.cols, c.target)
      invariant forall k :: 0 <= k < i ==> lines[k + 1] == NodeLine(c.nodes[k])
    {
      lines := lines + [NodeLine(c.nodes[i])];
      i := i + 1;
    }
    assert forall k :: 0 <= k < |lines| ==> lines[k] == Lines(c)[k];
  }

  // ---------------------------------------------------------------------
  // deserialize

  /** The rows and columns of "rows:cols". */
  function ParseDims(dims: string): (r: Result<(int, int)>)
    ensures r.Ok? ==> JavaInt.IsInt(r.value.0) && JavaInt.IsInt(r.value.1)
  {
    var dimensions := Split(dims, ':');
    var rowsText :- At(dimensions, 0);
    var rows :- ParseInt(rowsText);
    var colsText :- At(dimensions, 1);
    var cols :- ParseInt(colsText);
    Ok((rows, cols))
  }

  /** The target id: the text after the first ":" (the word before it is not
      checked). */
  function ParseTarget(info: string): (r: Result<int>)
    ensures r.Ok? ==> JavaInt.IsLong(r.value)
  {
    var targetText :- At(Split(info, ':'), 1);
    ParseLong(targetText)
  }

  /** The rows, columns and target id of the header line. */
  function ParseHeader(header: string): (r: Result<(int, int, int)>)
    ensures r.Ok? ==> JavaInt.IsInt(r.value.0) && JavaInt.IsInt(r.value.1) && JavaInt.IsLong(r.value.2)
  {
    var infoParts := Split(header, ',');
    var dims :- At(infoParts, 0);
    var d :- ParseDims(dims);
    var info :- At(infoParts, 1);
    var target :- ParseTarget(info);
    Ok((d.0, d.1, target))
  }

  /** The id and the tile a node line's fields denote, read in the order
      deserialize reads them. */
  function NodeFields(splitInfo: seq<string>): (r: Result<(int, TileRec)>)
    ensures r.Ok? ==> JavaInt.IsLong(r.value.0)
    ensures r.Ok? ==> JavaInt.IsInt(r.value.1.row) && JavaInt.IsInt(r.value.1.col) && JavaInt.IsInt(r.value.1.gold)
  {
    var idText :- At(splitInfo, 0);
    var id :- ParseLong(idText);
    var rowText :- At(splitInfo, 1);
    var row :- ParseInt(rowText);
    var colText :- At(splitInfo, 2);
    var col :- ParseInt(colText);
    var goldText :- At(splitInfo, 3);
    var gold :- ParseInt(goldText);
    var typeText :- At(splitInfo, 4);
    var t :- TypeValueOf(typeText);
    Ok((id, TileRec(row, col, gold, t)))
  }

  /** The first pass over one node line: the id and the tile, from the
      fields before the first "=". A line without "=" makes substring throw
      StringIndexOutOfBoundsException. */
  function NodeOfLine(line: string): (r: Result<(int, TileRec)>)
    ensures '=' !in line ==> r == Err(IndexOutOfBounds)
    ensures r.Ok? ==> JavaInt.IsLong(r.value.0)
    ensures r.Ok? ==> JavaInt.IsInt(r.value.1.row) && JavaInt.IsInt(r.value.1.col) && JavaInt.IsInt(r.value.1.gold)
  {
    var k := IndexOf(line, '=');
    if k < 0 then Err(IndexOutOfBounds) else NodeFields(Split(line[..k], ','))
  }

  /** The first pass over lines (a line equal to the header is skipped):
      the tile of each id, a later line for an id replacing an earlier one;
      the first failing line decides the error. */
  function FirstPass(lines: seq<string>, header: string): Result<map<int, TileRec>>
    decreases |lines|
  {
    if lines == [] then Ok(map[])
    else
      var tiles :- FirstPass(lines[..|lines| - 1], header);
      var line := lines[|lines| - 1];
      if line == header then Ok(tiles)
      else
        var node :- NodeOfLine(line);
        Ok(tiles[node.0 := node.1])
  }

  /** One "otherId-length" exit. */
  function ParseExit(s: string): (r: Result<Exit>)
    ensures r.Ok? ==> JavaInt.IsLong(r.value.other) && JavaInt.IsInt(r.value.length)
    ensures '-' !in s ==> r.Err?
  {
    var idAndWeight := Split(s, '-');
    var otherText :- At(idAndWeight, 0);
    var other :- ParseLong(otherText);
    var weightText :- At(idAndWeight, 1);
    var weight :- ParseInt(weightText);
    Ok(Exit(other, weight))
  }

  /** The exits of a list of exit texts, in order; the first bad one
      decides the error. */
  function ParseExits(strs: seq<string>): (r: Result<seq<Exit>>)
    ensures r.Ok? ==> |r.value| == |strs|
  {
    if strs == [] then Ok([])
    else
      var x :- ParseExit(strs[0]);
      var rest :- ParseExits(strs[1..]);
      Ok([x] + rest)
  }

  /** The id of a node line, from the text before its "=". */
  function LineId(first: string): (r: Result<int>)
    ensures r.Ok? ==> JavaInt.IsLong(r.value)
  {
    var idText :- At(Split(first, ','), 0);
    ParseLong(idText)
  }

  /** The exits of a node line split at "=", as deserialize is written: the
      second piece is read even when there is none. */
  function NodeExitsAsWritten(parts: seq<string>): (r: Result<seq<Exit>>)
    ensures |parts| < 2 ==> r == Err(IndexOutOfBounds)
  {
    var edgesText :- At(parts, 1);
    ParseExits(Split(edgesText, ','))
  }

  /** The exits of a node line split at "=", read so that a line with nothing
      after its "=" has no exits. */
  function NodeExits(parts: seq<string>): (r: Result<seq<Exit>>)
    ensures |parts| < 2 ==> r == Ok([])
    ensures |parts| >= 2 ==> r == NodeExitsAsWritten(parts)
  {
    if |parts| < 2 then Ok([]) else ParseExits(Split(parts[1], ','))
  }

  /** The second pass over one node line: its id, which the first pass
      found (a missing one would make n.getTile() throw
      NullPointerException), a check that the tile fits the rows x cols grid,
      and its exits, read as deserialize is written when asWritten holds and
      in the corrected way otherwise. */
  function ExitsOfLineWith(line: string, tiles: map<int, TileRec>, rows: int, cols: int, asWritten: bool)
    : (r: Result<(int, seq<Exit>)>)
    ensures r.Ok? ==> r.value.0 in tiles
    ensures r.Ok? ==> 0 <= tiles[r.value.0].row < rows && 0 <= tiles[r.value.0].col < cols
  {
    var parts := Split(line, '=');
    var first :- At(parts, 0);
    var id :- LineId(first);
    if id !in tiles then Err(NullPointer)
    else if !(0 <= tiles[id].row < rows && 0 <= tiles[id].col < cols) then Err(IndexOutOfBounds)
    else
      var exits :- if asWritten then NodeExitsAsWritten(parts) else NodeExits(parts);
      Ok((id, exits))
  }

  /** The second pass over one node line, in the corrected reading. */
  function ExitsOfLine(line: string, tiles: map<int, TileRec>, rows: int, cols: int): (r: Result<(int, seq<Exit>)>)
    ensures r.Ok? ==> r.value.0 in tiles
    ensures r.Ok? ==> 0 <= tiles[r.value.0].row < rows && 0 <= tiles[r.value.0].col < cols
  {
    ExitsOfLineWith(line, tiles, rows, cols, false)
  }

  /** The two readings of a line agree whenever the one as written succeeds;
      on a line the corrected reading accepts they differ exactly when
      nothing follows the "=", and then the one as written fails with
      ArrayIndexOutOfBoundsException. */
  lemma ReadingsOfLine(line: string, tiles: map<int, TileRec>, rows: int, cols: int)
    ensures ExitsOfLineWith(line, tiles, rows, cols, true).Ok? ==>
      ExitsOfLineWith(line, tiles, rows, cols, true) == ExitsOfLine(line, tiles, rows, cols)
    ensures ExitsOfLine(line, tiles, rows, cols).Ok? && |Split(line, '=')| >= 2 ==>
      ExitsOfLineWith(line, tiles, rows, cols, true) == ExitsOfLine(line, tiles, rows, cols)
    ensures ExitsOfLine(line, tiles, rows, cols).Ok? && |Split(line, '=')| < 2 ==>
      ExitsOfLineWith(line, tiles, rows, cols, true) == Err(IndexOutOfBounds)
  {
    var parts := Split(line, '=');
    if parts != [] && LineId(parts[0]).Ok? {
      var id := LineId(parts[0]).value;
      if id in tiles && 0 <= tiles[id].row < rows && 0 <= tiles[id].col < cols {
        if |parts| >= 2 {
          assert NodeExits(parts) == NodeExitsAsWritten(parts);
        } else {
          assert NodeExitsAsWritten(parts) == Err(IndexOutOfBounds);
        }
      }
    }
  }

  /** Every id the first pass records is a long, and its tile's row, column
      and gold are ints. */
  lemma {:induction false} FirstPassRanges(lines: seq<string>, header: string)
    ensures FirstPass(lines, header).Ok? ==> forall id :: id in FirstPass(lines, header).value ==>
      && JavaInt.IsLong(id)
      && JavaInt.IsInt(FirstPass(lines, header).value[id].row)
      && JavaInt.IsInt(FirstPass(lines, header).value[id].col)
      && JavaInt.IsInt(FirstPass(lines, header).value[id].gold)
    decreases |lines|
  {
    if lines != [] {
      FirstPassRanges(lines[..|lines| - 1], header);
    }
  }

  /** Exits appended to those already collected for id. */
  function AddExits(m: map<int, seq<Exit>>, id: int, xs: seq<Exit>): (r: map<int, seq<Exit>>)
    ensures r.Keys == m.Keys + {id}
    ensures r[id] == (if id in m then m[id] else []) + xs
    ensures forall j :: j in m && j != id ==> r[j] == m[j]
  {
    m[id := (if id in m then m[id] else []) + xs]
  }

  /** The second pass over lines: the exits each id collects, in line
      order, each line read as deserialize is written or in the corrected
      way. */
  function SecondPassWith(lines: seq<string>, header: string, tiles: map<int, TileRec>, rows: int, cols: int, asWritten: bool)
    : Result<map<int, seq<Exit>>>
    decreases |lines|
  {
    if lines == [] then Ok(map[])
    else
      var exits :- SecondPassWith(lines[..|lines| - 1], header, tiles, rows, cols, asWritten);
      var line := lines[|lines| - 1];
      if line == header then Ok(exits)
      else
        var e :- ExitsOfLineWith(line, tiles, rows, cols, asWritten);
        Ok(AddExits(exits, e.0, e.1))
  }

  /** The second pass in the corrected reading. */
  function SecondPass(lines: seq<string>, header: string, tiles: map<int, TileRec>, rows: int, cols: int)
    : Result<map<int, seq<Exit>>>
  {
    SecondPassWith(lines, header, tiles, rows, cols, false)
  }

  /** Only ids the first pass found collect exits. */
  lemma {:induction false} SecondPassKeys(lines: seq<string>, header: string, tiles: map<int, TileRec>, rows: int, cols: int, asWritten: bool)
    ensures SecondPassWith(lines, header, tiles, rows, cols, asWritten).Ok? ==>
      SecondPassWith(lines, header, tiles, rows, cols, asWritten).value.Keys <= tiles.Keys
    decreases |lines|
  {
    if lines != [] {
      SecondPassKeys(lines[..|lines| - 1], header, tiles, rows, cols, asWritten);
    }
  }

  /** The second pass as written agrees with the corrected one whenever it
      succeeds. */
  lemma {:induction false} SecondPassReadings(lines: seq<string>, header: string, tiles: map<int, TileRec>, rows: int, cols: int)
    ensures SecondPassWith(lines, header, tiles, rows, cols, true).Ok? ==>
      SecondPassWith(lines, header, tiles, rows, cols, true) == SecondPass(lines, header, tiles, rows, cols)
    decreases |lines|
  {
    if lines != [] {
      SecondPassReadings(lines[..|lines| - 1], header, tiles, rows, cols);
      ReadingsOfLine(lines[|lines| - 1], tiles, rows, cols);
    }
  }

  predicate HasEntrance(tiles: map<int, TileRec>)
  {
    exists id :: id in tiles && tiles[id].ttype == ENTRANCE
  }

  /** deserialize(lines) as a function: the header, the first pass, the
      rows x cols grid (NegativeArraySizeException for a negative
      dimension), the second pass, then the Cavern constructor, which reads
      the first grid row (ArrayIndexOutOfBoundsException for zero rows) and
      looks for an entrance (NoSuchElementException when there is none). */
  function LoadWith(lines: seq<string>, asWritten: bool): (r: Result<Loaded>)
    ensures lines == [] ==> r == Err(IndexOutOfBounds)
    ensures r.Ok? ==> r.value.rows > 0 && r.value.cols >= 0 && HasEntrance(r.value.tiles)
  {
    var header :- At(lines, 0);
    var h :- ParseHeader(header);
    var tiles :- FirstPass(lines, header);
    if h.0 < 0 || h.1 < 0 then Err(NegativeArraySize)
    else
      var exits :- SecondPassWith(lines, header, tiles, h.0, h.1, asWritten);
      if h.0 == 0 then Err(IndexOutOfBounds)
      else if !HasEntrance(tiles) then Err(NoSuchElement)
      else Ok(Loaded(h.0, h.1, h.2, tiles, exits))
  }

  /** deserialize in the corrected reading of Cavern.java:460, where a node
      line with nothing after its "=" has no exits. */
  function Load(lines: seq<string>): (r: Result<Loaded>)
    ensures lines == [] ==> r == Err(IndexOutOfBounds)
    ensures r.Ok? ==> r.value.rows > 0 && r.value.cols >= 0 && HasEntrance(r.value.tiles)
  {
    LoadWith(lines, false)
  }

  /** deserialize as written, reading a second piece of every node line; it
      agrees with the corrected reading whenever it succeeds. */
  function LoadAsWritten(lines: seq<string>): (r: Result<Loaded>)
    ensures lines == [] ==> r == Err(IndexOutOfBounds)
    ensures r.Ok? ==> r == Load(lines)
  {
    LoadReadings(lines);
    LoadWith(lines, true)
  }

  /** The two readings of deserialize agree whenever the one as written
      succeeds. */
  lemma LoadReadings(lines: seq<string>)
    ensures LoadWith(lines, true).Ok? ==> LoadWith(lines, true) == LoadWith(lines, false)
  {
    if LoadWith(lines, true).Ok? {
      var header := lines[0];
      var h := ParseHeader(header).value;
      var tiles := FirstPass(lines, header).value;
      SecondPassReadings(lines, header, tiles, h.0, h.1);
    }
  }

  /** Once a prefix of the lines fails the first pass, the whole does, with
      the same error. */
  lemma {:induction false} FirstPassFails(lines: seq<string>, header: string, i: nat)
    requires i <= |lines| && FirstPass(lines[..i], header).Err?
    ensures FirstPass(lines, header) == FirstPass(lines[..i], header)
    decreases |lines| - i
  {
    if i < |lines| {
      assert lines[..i + 1][..i] == lines[..i];
      FirstPassFails(lines, header, i + 1);
    } else {
      assert lines[..i] == lines;
    }
  }

  /** Once a prefix of the lines fails the second pass, the whole does, with
      the same error. */
  lemma {:induction false} SecondPassFails(lines: seq<string>, header: string, tiles: map<int, TileRec>, rows: int, cols: int, asWritten: bool, i: nat)
    requires i <= |lines| && SecondPassWith(lines[..i], header, tiles, rows, cols, asWritten).Err?
    ensures SecondPassWith(lines, header, tiles, rows, cols, asWritten) == SecondPassWith(lines[..i], header, tiles, rows, cols, asWritten)
    decreases |lines| - i
  {
    if i < |lines| {
      assert lines[..i + 1][..i] == lines[..i];
      SecondPassFails(lines, header, tiles, rows, cols, asWritten, i + 1);
    } else {
      assert lines[..i] == lines;
    }
  }

  /** The first pass over one more line. */
  lemma FirstPassStep(lines: seq<string>, header: string, i: nat)
    requires i < |lines| && FirstPass(lines[..i], header).Ok?
    ensures lines[i] == header ==> FirstPass(lines[..i + 1], header) == FirstPass(lines[..i], header)
    ensures lines[i] != header && NodeOfLine(lines[i]).Err? ==>
      FirstPass(lines[..i + 1], header) == Err(NodeOfLine(lines[i]).error)
    ensures lines[i] != header && NodeOfLine(lines[i]).Ok? ==>
      var node := NodeOfLine(lines[i]).value;
      FirstPass(lines[..i + 1], header) == Ok(FirstPass(lines[..i], header).value[node.0 := node.1])
  {
    assert lines[..i + 1][..i] == lines[..i];
  }

  /** The second pass over one more line. */
  lemma SecondPassStep(lines: seq<string>, header: string, tiles: map<int, TileRec>, rows: int, cols: int, asWritten: bool, i: nat)
    requires i < |lines| && SecondPassWith(lines[..i], header, tiles, rows, cols, asWritten).Ok?
    ensures lines[i] == header ==>
      SecondPassWith(lines[..i + 1], header, tiles, rows, cols, asWritten) == SecondPassWith(lines[..i], header, tiles, rows, cols, asWritten)
    ensures lines[i] != header && ExitsOfLineWith(lines[i], tiles, rows, cols, asWritten).Err? ==>
      SecondPassWith(lines[..i + 1], header, tiles, rows, cols, asWritten) == Err(ExitsOfLineWith(lines[i], tiles, rows, cols, asWritten).error)
    ensures lines[i] != header && ExitsOfLineWith(lines[i], tiles, rows, cols, asWritten).Ok? ==>
      var e := ExitsOfLineWith(lines[i], tiles, rows, cols, asWritten).value;
      SecondPassWith(lines[..i + 1], header, tiles, rows, cols, asWritten)
        == Ok(AddExits(SecondPassWith(lines[..i], header, tiles, rows, cols, asWritten).value, e.0, e.1))
  {
    assert lines[..i + 1][..i] == lines[..i];
  }

  /** The first loop of deserialize: idToNode, filled line by line. */
  method ReadNodes(lines: seq<string>, header: string) returns (r: Result<map<int, TileRec>>)
    ensures r == FirstPass(lines, header)
  {
    var tiles: map<int, TileRec> := map[];
    var i := 0;
    while i < |lines|
      invariant 0 <= i <= |lines| && FirstPass(lines[..i], header) == Ok(tiles)
    {
      FirstPassStep(lines, header, i);
      if lines[i] != header {
        var node := NodeOfLine(lines[i]);
        if node.Err? {
          FirstPassFails(lines, header, i + 1);
          return Err(node.error);
        }
        tiles := tiles[node.value.0 := node.value.1];
      }
      i := i + 1;
    }
    assert lines[..i] == lines;
    r := Ok(tiles);
  }

  /** The second loop of deserialize: the exits of each node, added line by
      line. */
  method ReadExits(lines: seq<string>, header: string, tiles: map<int, TileRec>, rows: int, cols: int)
    returns (r: Result<map<int, seq<Exit>>>)
    ensures r == SecondPass(lines, header, tiles, rows, cols)
  {
    var exits: map<int, seq<Exit>> := map[];
    var i := 0;
    while i < |lines|
      invariant 0 <= i <= |lines| && SecondPass(lines[..i], header, tiles, rows, cols) == Ok(exits)
    {
      SecondPassStep(lines, header, tiles, rows, cols, false, i);
      if lines[i] != header {
        var e := ExitsOfLine(lines[i], tiles, rows, cols);
        if e.Err? {
          SecondPassFails(lines, header, tiles, rows, cols, false, i + 1);
          return Err(e.error);
        }
        exits := AddExits(exits, e.value.0, e.value.1);
      }
      i := i + 1;
    }
    assert lines[..i] == lines;
    r := Ok(exits);
  }

  /** deserialize(nodeStrList): the header, the two loops over the lines,
      and the checks the grid and the Cavern constructor make. */
  method Deserialize(lines: seq<string>) returns (r: Result<Loaded>)
    ensures r == Load(lines)
  {
    if |lines| == 0 {
      return Err(IndexOutOfBounds);
    }
    var header := lines[0];
    var h := ParseHeader(header);
    if h.Err? {
      return Err(h.error);
    }
    var rows, cols, target := h.value.0, h.value.1, h.value.2;
    var tiles := ReadNodes(lines, header);
    if tiles.Err? {
      return Err(tiles.error);
    }
    if rows < 0 || cols < 0 {
      return Err(NegativeArraySize);
    }
    var exits := ReadExits(lines, header, tiles.value, rows, cols);
    if exits.Err? {
      return Err(exits.error);
    }
    if rows == 0 {
      return Err(IndexOutOfBounds);
    }
    if !HasEntrance(tiles.value) {
      return Err(NoSuchElement);
    }
    r := Ok(Loaded(rows, cols, target, tiles.value, exits.value));
  }

  // ---------------------------------------------------------------------
  // The round trip

  /** The tile deserialize makes for a node. */
  function TileOfNode(n: NodeRec): TileRec
  {
    TileRec(n.row, n.col, n.gold, n.ttype)
  }

  /** The tile of each id among the nodes, a later node replacing an
      earlier one with the same id. */
  function TilesOf(nodes: seq<NodeRec>): map<int, TileRec>
  {
    if nodes == [] then map[]
    else
      var n := nodes[|nodes| - 1];
      TilesOf(nodes[..|nodes| - 1])[n.id := TileOfNode(n)]
  }

  /** The exits of each id among the nodes, in node order. */
  function ExitsOf(nodes: seq<NodeRec>): map<int, seq<Exit>>
  {
    if nodes == [] then map[]
    else
      var n := nodes[|nodes| - 1];
      AddExits(ExitsOf(nodes[..|nodes| - 1]), n.id, n.exits)
  }

  /** An exit deserialize can read back: "-" also separates an exit's id
      from its length, so neither may be negative. */
  predicate PrintableExit(x: Exit)
  {
    0 <= x.other <= JavaInt.LONG_MAX && 0 <= x.length <= JavaInt.INT_MAX
  }

  /** A node deserialize can read back: numbers in the ranges of their Java
      types, the tile inside the grid, and readable exits. */
  predicate PrintableNode(n: NodeRec, rows: int, cols: int)
  {
    && JavaInt.IsLong(n.id) && 0 <= n.row < rows && 0 <= n.col < cols && JavaInt.IsInt(n.gold)
    && rows <= JavaInt.INT_MAX && cols <= JavaInt.INT_MAX
    && forall k :: 0 <= k < |n.exits| ==> PrintableExit(n.exits[k])
  }

  /** A cavern whose serialization deserialize reads back: dimensions in the
      int range with at least one row, a target id in the long range,
      readable nodes with distinct ids, and an entrance. */
  predicate Printable(c: CavernRec)
  {
    && 0 < c.rows <= JavaInt.INT_MAX && 0 <= c.cols <= JavaInt.INT_MAX && JavaInt.IsLong(c.target)
    && (forall i :: 0 <= i < |c.nodes| ==> PrintableNode(c.nodes[i], c.rows, c.cols))
    && (forall i, j :: 0 <= i < j < |c.nodes| ==> c.nodes[i].id != c.nodes[j].id)
    && (exists i :: 0 <= i < |c.nodes| && c.nodes[i].ttype == ENTRANCE)
  }

  /** "rows:cols" reads back as the dimensions; it has a ":" and no ",". */
  lemma DimsRoundTrip(rows: int, cols: int)
    requires JavaInt.IsInt(rows) && JavaInt.IsInt(cols)
    ensures ParseDims(DimsText(rows, cols)) == Ok((rows, cols))
    ensures ':' in DimsText(rows, cols) && ',' !in DimsText(rows, cols)
  {
    PrintedChars(rows);
    PrintedChars(cols);
    SplitJoin([IntString(rows), IntString(cols)], ':');
    JoinChars([IntString(rows), IntString(cols)], ':', ',');
    ParseIntPrinted(rows);
    ParseIntPrinted(cols);
    assert DimsText(rows, cols)[|IntString(rows)|] == ':';
  }

  /** "trgt:targetId" reads back as the target id; it has no ",". */
  lemma TargetRoundTrip(target: int)
    requires JavaInt.IsLong(target)
    ensures ParseTarget(TargetText(target)) == Ok(target)
    ensures ',' !in TargetText(target) && TargetText(target) != []
  {
    PrintedChars(target);
    SplitJoin(["trgt", IntString(target)], ':');
    JoinChars(["trgt", IntString(target)], ':', ',');
    ParseLongPrinted(target);
  }

  /** The header reads back as the dimensions and target id it was printed
      from; it has a ":". */
  lemma HeaderRoundTrip(rows: int, cols: int, target: int)
    requires JavaInt.IsInt(rows) && JavaInt.IsInt(cols) && JavaInt.IsLong(target)
    ensures ParseHeader(HeaderLine(rows, cols, target)) == Ok((rows, cols, target))
    ensures ':' in HeaderLine(rows, cols, target)
  {
    DimsRoundTrip(rows, cols);
    TargetRoundTrip(target);
    SplitJoin([DimsText(rows, cols), TargetText(target)], ',');
    var d := DimsText(rows, cols);
    var k := IndexOf(d, ':');
    assert HeaderLine(rows, cols, target) == d + [','] + TargetText(target);
    assert HeaderLine(rows, cols, target)[k] == ':';
  }

  /** The fields of a node line hold none of the separators. */
  lemma InfoChars(n: NodeRec)
    ensures forall i :: 0 <= i < |InfoFields(n)| ==>
      ',' !in InfoFields(n)[i] && '=' !in InfoFields(n)[i] && ':' !in InfoFields(n)[i]
    ensures '=' !in NodeInfo(n) && ':' !in NodeInfo(n) && NodeInfo(n) != []
  {
    PrintedChars(n.id);
    PrintedChars(n.row);
    PrintedChars(n.col);
    PrintedChars(n.gold);
    NameChars(n.ttype);
    JoinChars(InfoFields(n), ',', '=');
    JoinChars(InfoFields(n), ',', ':');
  }

  /** "id,row,col,gold,TYPE" splits at "," into its fields. */
  lemma InfoSplit(n: NodeRec)
    ensures Split(NodeInfo(n), ',') == InfoFields(n)
  {
    InfoChars(n);
    SplitJoin(InfoFields(n), ',');
  }

  /** The fields read back as the id and the tile. */
  lemma FieldsRoundTrip(n: NodeRec)
    requires JavaInt.IsLong(n.id) && JavaInt.IsInt(n.row) && JavaInt.IsInt(n.col) && JavaInt.IsInt(n.gold)
    ensures NodeFields(InfoFields(n)) == Ok((n.id, TileOfNode(n)))
  {
    ParseLongPrinted(n.id);
    ParseIntPrinted(n.row);
    ParseIntPrinted(n.col);
    ParseIntPrinted(n.gold);
  }

  /** An exit's text reads back as the exit. */
  lemma ExitRoundTrip(x: Exit)
    requires PrintableExit(x)
    ensures ParseExit(ExitText(x)) == Ok(x)
    ensures ',' !in ExitText(x) && '=' !in ExitText(x) && ':' !in ExitText(x) && ExitText(x) != []
  {
    var parts := [IntString(x.other), IntString(x.length)];
    PrintedChars(x.other);
    PrintedChars(x.length);
    SplitJoin(parts, '-');
    JoinChars(parts, '-', ',');
    JoinChars(parts, '-', '=');
    JoinChars(parts, '-', ':');
    ParseLongPrinted(x.other);
    ParseIntPrinted(x.length);
  }

  /** A list of exit texts reads back as the exits. */
  lemma {:induction false} ExitsRoundTrip(xs: seq<Exit>)
    requires forall k :: 0 <= k < |xs| ==> PrintableExit(xs[k])
    ensures ParseExits(ExitTexts(xs)) == Ok(xs)
    decreases |xs|
  {
    if xs != [] {
      assert ExitTexts(xs) == [ExitText(xs[0])] + ExitTexts(xs[1..]);
      ExitRoundTrip(xs[0]);
      ExitsRoundTrip(xs[1..]);
      ParseExitsCons(ExitText(xs[0]), ExitTexts(xs[1..]), xs[0], xs[1..]);
      assert [xs[0]] + xs[1..] == xs;
    }
  }

  /** Exit texts read one by one: the first, then the rest. */
  lemma ParseExitsCons(t: string, ts: seq<string>, x: Exit, rest: seq<Exit>)
    requires ParseExit(t) == Ok(x) && ParseExits(ts) == Ok(rest)
    ensures ParseExits([t] + ts) == Ok([x] + rest)
  {
    assert ([t] + ts)[0] == t && ([t] + ts)[1..] == ts;
  }

  /** The joined exit texts split back at ","; they hold no "=" or ":", and
      are empty exactly when there are no exits. */
  lemma ExitsTextSplit(xs: seq<Exit>)
    requires forall k :: 0 <= k < |xs| ==> PrintableExit(xs[k])
    ensures '=' !in ExitsText(xs) && ':' !in ExitsText(xs)
    ensures ExitsText(xs) == [] <==> xs == []
    ensures xs != [] ==> Split(ExitsText(xs), ',') == ExitTexts(xs)
  {
    var ts := ExitTexts(xs);
    forall k | 0 <= k < |ts|
      ensures ',' !in ts[k] && '=' !in ts[k] && ':' !in ts[k] && ts[k] != []
    {
      ExitRoundTrip(xs[k]);
    }
    JoinChars(ts, ',', '=');
    JoinChars(ts, ',', ':');
    if xs != [] {
      SplitJoin(ts, ',');
    }
  }

  /** How a node line splits at "=": into its fields and, when it has
      exits, their joined texts. */
  function LineParts(n: NodeRec): seq<string>
  {
    if n.exits == [] then [NodeInfo(n)] else [NodeInfo(n), ExitsText(n.exits)]
  }

  lemma LineSplit(n: NodeRec)
    requires forall k :: 0 <= k < |n.exits| ==> PrintableExit(n.exits[k])
    ensures Split(NodeLine(n), '=') == LineParts(n)
    ensures ':' !in NodeLine(n)
  {
    InfoChars(n);
    ExitsTextSplit(n.exits);
    var parts := [NodeInfo(n), ExitsText(n.exits)];
    assert NodeLine(n) == Join(parts, '=');
    PiecesJoin(parts, '=');
    JoinChars(parts, '=', ':');
  }

  /** The first "=" of a node line is the one after its fields. */
  lemma LineCut(n: NodeRec)
    ensures IndexOf(NodeLine(n), '=') == |NodeInfo(n)| && NodeLine(n)[..|NodeInfo(n)|] == NodeInfo(n)
  {
    InfoChars(n);
    IndexOfAfter(NodeInfo(n), '=', ExitsText(n.exits));
  }

  /** The first pass reads a node line as the node's id and tile. */
  lemma FirstPassLine(n: NodeRec, rows: int, cols: int)
    requires PrintableNode(n, rows, cols)
    ensures NodeOfLine(NodeLine(n)) == Ok((n.id, TileOfNode(n)))
  {
    LineCut(n);
    InfoSplit(n);
    FieldsRoundTrip(n);
  }

  /** The second pass reads a node line as the node's id and exits, once the
      first pass has recorded a tile inside the grid for that id. */
  lemma SecondPassLine(n: NodeRec, tiles: map<int, TileRec>, rows: int, cols: int)
    requires PrintableNode(n, rows, cols)
    requires n.id in tiles && 0 <= tiles[n.id].row < rows && 0 <= tiles[n.id].col < cols
    ensures ExitsOfLine(NodeLine(n), tiles, rows, cols) == Ok((n.id, n.exits))
  {
    LineSplit(n);
    InfoSplit(n);
    ParseLongPrinted(n.id);
    assert LineId(NodeInfo(n)) == Ok(n.id);
    ExitsRoundTrip(n.exits);
    ExitsTextSplit(n.exits);
    assert NodeExits(LineParts(n)) == Ok(n.exits);
    LineOf(NodeLine(n), tiles, rows, cols, LineParts(n), n.id, n.exits);
  }

  /** A line whose split at "=" starts with the text of an id the first pass
      found, on the grid, and gives exits reads as that id and those exits. */
  lemma LineOf(line: string, tiles: map<int, TileRec>, rows: int, cols: int, parts: seq<string>, id: int, exits: seq<Exit>)
    requires Split(line, '=') == parts && |parts| > 0 && LineId(parts[0]) == Ok(id)
    requires id in tiles && 0 <= tiles[id].row < rows && 0 <= tiles[id].col < cols
    requires NodeExits(parts) == Ok(exits)
    ensures ExitsOfLine(line, tiles, rows, cols) == Ok((id, exits))
  {
  }

  /** With distinct ids, each node's id records exactly its tile. */
  lemma {:induction false} TilesOfDistinct(nodes: seq<NodeRec>, i: int)
    requires 0 <= i < |nodes|
    requires forall a, b :: 0 <= a < b < |nodes| ==> nodes[a].id != nodes[b].id
    ensures nodes[i].id in TilesOf(nodes)
    ensures TilesOf(nodes)[nodes[i].id] == TileOfNode(nodes[i])
    decreases |nodes|
  {
    if i < |nodes| - 1 {
      TilesOfDistinct(nodes[..|nodes| - 1], i);
    }
  }

  /** The first pass over the header and lines that each read as a node
      records the tiles of those nodes. */
  lemma {:induction false} FirstPassOf(header: string, lines: seq<string>, nodes: seq<NodeRec>)
    requires |lines| == |nodes|
    requires forall i :: 0 <= i < |lines| ==> lines[i] != header && NodeOfLine(lines[i]) == Ok((nodes[i].id, TileOfNode(nodes[i])))
    ensures FirstPass([header] + lines, header) == Ok(TilesOf(nodes))
    decreases |lines|
  {
    var ls := [header] + lines;
    if lines == [] {
      assert ls[..0] == [];
    } else {
      var k := |lines| - 1;
      FirstPassOf(header, lines[..k], nodes[..k]);
      assert ls[..k + 1] == [header] + lines[..k];
      FirstPassStep(ls, header, k + 1);
      assert ls[..k + 2] == ls && ls[k + 1] == lines[k];
    }
  }

  /** The second pass over the header and lines that each read as a node's
      id and exits collects the exits of those nodes. */
  lemma {:induction false} SecondPassOf(header: string, lines: seq<string>, tiles: map<int, TileRec>, rows: int, cols: int, asWritten: bool, nodes: seq<NodeRec>)
    requires |lines| == |nodes|
    requires forall i :: 0 <= i < |lines| ==>
      lines[i] != header && ExitsOfLineWith(lines[i], tiles, rows, cols, asWritten) == Ok((nodes[i].id, nodes[i].exits))
    ensures SecondPassWith([header] + lines, header, tiles, rows, cols, asWritten) == Ok(ExitsOf(nodes))
    decreases |lines|
  {
    var ls := [header] + lines;
    if lines == [] {
      assert ls[..0] == [];
    } else {
      var k := |lines| - 1;
      SecondPassOf(header, lines[..k], tiles, rows, cols, asWritten, nodes[..k]);
      assert ls[..k + 1] == [header] + lines[..k];
      SecondPassStep(ls, header, tiles, rows, cols, asWritten, k + 1);
      assert ls[..k + 2] == ls && ls[k + 1] == lines[k];
    }
  }

  /** Every node line of a printable cavern differs from its header and
      reads back, in either pass, as that node. */
  lemma NodeLinesRead(c: CavernRec, i: int)
    requires Printable(c) && 0 <= i < |c.nodes|
    ensures Lines(c)[i + 1] != HeaderLine(c.rows, c.cols, c.target)
    ensures NodeOfLine(Lines(c)[i + 1]) == Ok((c.nodes[i].id, TileOfNode(c.nodes[i])))
    ensures ExitsOfLine(Lines(c)[i + 1], TilesOf(c.nodes), c.rows, c.cols) == Ok((c.nodes[i].id, c.nodes[i].exits))
  {
    var n := c.nodes[i];
    assert Lines(c)[i + 1] == NodeLine(n);
    HeaderRoundTrip(c.rows, c.cols, c.target);
    LineSplit(n);
    FirstPassLine(n, c.rows, c.cols);
    TilesOfDistinct(c.nodes, i);
    SecondPassLine(n, TilesOf(c.nodes), c.rows, c.cols);
  }

  /** deserialize reads a header and lines that each read as a node as the
      dimensions, the target id, and the tiles and exits of those nodes. */
  lemma LoadOf(header: string, body: seq<string>, rows: int, cols: int, target: int, nodes: seq<NodeRec>)
    requires ParseHeader(header) == Ok((rows, cols, target)) && rows > 0 && cols >= 0
    requires |body| == |nodes| && HasEntrance(TilesOf(nodes))
    requires forall i :: 0 <= i < |body| ==>
      body[i] != header && NodeOfLine(body[i]) == Ok((nodes[i].id, TileOfNode(nodes[i])))
    requires forall i :: 0 <= i < |body| ==>
      ExitsOfLine(body[i], TilesOf(nodes), rows, cols) == Ok((nodes[i].id, nodes[i].exits))
    ensures Load([header] + body) == Ok(Loaded(rows, cols, target, TilesOf(nodes), ExitsOf(nodes)))
  {
    FirstPassOf(header, body, nodes);
    SecondPassOf(header, body, TilesOf(nodes), rows, cols, false, nodes);
  }

  /** deserialize(serialize()) rebuilds the cavern: its dimensions, its
      target id, the tile of every node and the exits of every node. */
  lemma RoundTrip(c: CavernRec)
    requires Printable(c)
    ensures Load(Lines(c)) == Ok(Loaded(c.rows, c.cols, c.target, TilesOf(c.nodes), ExitsOf(c.nodes)))
  {
    var ls := Lines(c);
    var header := HeaderLine(c.rows, c.cols, c.target);
    var body := ls[1..];
    assert ls == [header] + body;
    forall i | 0 <= i < |body|
      ensures body[i] != header && NodeOfLine(body[i]) == Ok((c.nodes[i].id, TileOfNode(c.nodes[i])))
      ensures ExitsOfLine(body[i], TilesOf(c.nodes), c.rows, c.cols) == Ok((c.nodes[i].id, c.nodes[i].exits))
    {
      NodeLinesRead(c, i);
    }
    HeaderRoundTrip(c.rows, c.cols, c.target);
    var i :| 0 <= i < |c.nodes| && c.nodes[i].ttype == ENTRANCE;
    TilesOfDistinct(c.nodes, i);
    LoadOf(header, body, c.rows, c.cols, c.target, c.nodes);
  }

  /** An id no node has collects no exits. */
  lemma {:induction false} NotInExitsOf(nodes: seq<NodeRec>, id: int)
    requires forall a :: 0 <= a < |nodes| ==> nodes[a].id != id
    ensures id !in ExitsOf(nodes)
    decreases |nodes|
  {
    if nodes != [] {
      NotInExitsOf(nodes[..|nodes| - 1], id);
    }
  }

  /** With distinct ids, each node's id collects exactly its exits. */
  lemma {:induction false} ExitsOfDistinct(nodes: seq<NodeRec>, i: int)
    requires 0 <= i < |nodes|
    requires forall a, b :: 0 <= a < b < |nodes| ==> nodes[a].id != nodes[b].id
    ensures nodes[i].id in ExitsOf(nodes) && ExitsOf(nodes)[nodes[i].id] == nodes[i].exits
    decreases |nodes|
  {
    if i < |nodes| - 1 {
      ExitsOfDistinct(nodes[..|nodes| - 1], i);
    } else {
      NotInExitsOf(nodes[..|nodes| - 1], nodes[i].id);
    }
  }

  /** The line of a node without exits ends in "=", and split drops the
      empty text after it: deserialize as written then reads a second piece
      that does not exist, and fails, where the corrected reading finds no
      exits. */
  lemma NoExitsAsWrittenFails(n: NodeRec)
    requires n.exits == []
    ensures NodeLine(n)[|NodeLine(n)| - 1] == '='
    ensures NodeExitsAsWritten(Split(NodeLine(n), '=')) == Err(IndexOutOfBounds)
    ensures NodeExits(Split(NodeLine(n), '=')) == Ok([])
  {
    LineSplit(n);
  }

  /** A node line with printable exits that the corrected second pass reads
      as that node reads back the same as deserialize is written when the
      node has an exit, and fails with ArrayIndexOutOfBoundsException when it
      has none. */
  lemma NodeLineAsWritten(n: NodeRec, tiles: map<int, TileRec>, rows: int, cols: int)
    requires forall k :: 0 <= k < |n.exits| ==> PrintableExit(n.exits[k])
    requires ExitsOfLine(NodeLine(n), tiles, rows, cols) == Ok((n.id, n.exits))
    ensures n.exits != [] ==> ExitsOfLineWith(NodeLine(n), tiles, rows, cols, true) == Ok((n.id, n.exits))
    ensures n.exits == [] ==> ExitsOfLineWith(NodeLine(n), tiles, rows, cols, true) == Err(IndexOutOfBounds)
  {
    LineSplit(n);
    ParsedLineAsWritten(NodeLine(n), tiles, rows, cols, n.id, n.exits);
  }

  /** A line the corrected second pass reads as an id and exits, split at "="
      into one piece when there are no exits and two otherwise, reads the same
      as written when there are exits and fails when there are none. */
  lemma ParsedLineAsWritten(line: string, tiles: map<int, TileRec>, rows: int, cols: int, id: int, exits: seq<Exit>)
    requires ExitsOfLine(line, tiles, rows, cols) == Ok((id, exits))
    requires |Split(line, '=')| == if exits == [] then 1 else 2
    ensures exits != [] ==> ExitsOfLineWith(line, tiles, rows, cols, true) == Ok((id, exits))
    ensures exits == [] ==> ExitsOfLineWith(line, tiles, rows, cols, true) == Err(IndexOutOfBounds)
  {
    ReadingsOfLine(line, tiles, rows, cols);
  }

  /** The second pass as written over the header and lines whose first
      failing line fails with ArrayIndexOutOfBoundsException fails with it. */
  lemma SecondPassAsWrittenFails(header: string, lines: seq<string>, tiles: map<int, TileRec>, rows: int, cols: int, nodes: seq<NodeRec>, i: int)
    requires 0 <= i < |lines| && |nodes| == i
    requires forall j :: 0 <= j <= i ==> lines[j] != header
    requires forall j :: 0 <= j < i ==>
      ExitsOfLineWith(lines[j], tiles, rows, cols, true) == Ok((nodes[j].id, nodes[j].exits))
    requires ExitsOfLineWith(lines[i], tiles, rows, cols, true) == Err(IndexOutOfBounds)
    ensures SecondPassWith([header] + lines, header, tiles, rows, cols, true) == Err(IndexOutOfBounds)
  {
    var ls := [header] + lines;
    assert ls[..i + 1] == [header] + lines[..i];
    SecondPassOf(header, lines[..i], tiles, rows, cols, true, nodes);
    assert ls[..i + 2][..i + 1] == ls[..i + 1] && ls[i + 1] == lines[i];
    SecondPassFails(ls, header, tiles, rows, cols, true, i + 2);
  }

  /** deserialize, in either reading, of a header and lines whose first pass
      succeeds ends as the second pass does. */
  lemma LoadWithOf(header: string, body: seq<string>, rows: int, cols: int, target: int, tiles: map<int, TileRec>, asWritten: bool)
    requires ParseHeader(header) == Ok((rows, cols, target)) && rows > 0 && cols >= 0 && HasEntrance(tiles)
    requires FirstPass([header] + body, header) == Ok(tiles)
    ensures var second := SecondPassWith([header] + body, header, tiles, rows, cols, asWritten);
      && (second.Err? ==> LoadWith([header] + body, asWritten) == Err(second.error))
      && (second.Ok? ==> LoadWith([header] + body, asWritten) == Ok(Loaded(rows, cols, target, tiles, second.value)))
  {
  }

  /** deserialize as written of a header and lines that read as nodes, except
      that the lines of nodes without exits fail: the dimensions, the target
      id, and the tiles and exits of those nodes when every one has an exit,
      ArrayIndexOutOfBoundsException otherwise. */
  lemma LoadAsWrittenOf(header: string, body: seq<string>, rows: int, cols: int, target: int, nodes: seq<NodeRec>)
    requires ParseHeader(header) == Ok((rows, cols, target)) && rows > 0 && cols >= 0
    requires |body| == |nodes| && HasEntrance(TilesOf(nodes))
    requires forall i :: 0 <= i < |body| ==>
      body[i] != header && NodeOfLine(body[i]) == Ok((nodes[i].id, TileOfNode(nodes[i])))
    requires forall i :: 0 <= i < |body| && nodes[i].exits != [] ==>
      ExitsOfLineWith(body[i], TilesOf(nodes), rows, cols, true) == Ok((nodes[i].id, nodes[i].exits))
    requires forall i :: 0 <= i < |body| && nodes[i].exits == [] ==>
      ExitsOfLineWith(body[i], TilesOf(nodes), rows, cols, true) == Err(IndexOutOfBounds)
    ensures (forall i :: 0 <= i < |nodes| ==> nodes[i].exits != []) ==>
      LoadWith([header] + body, true) == Ok(Loaded(rows, cols, target, TilesOf(nodes), ExitsOf(nodes)))
    ensures (exists i :: 0 <= i < |nodes| && nodes[i].exits == []) ==>
      LoadWith([header] + body, true) == Err(IndexOutOfBounds)
  {
    FirstPassOf(header, body, nodes);
    LoadWithOf(header, body, rows, cols, target, TilesOf(nodes), true);
    if forall k :: 0 <= k < |nodes| ==> nodes[k].exits != [] {
      SecondPassOf(header, body, TilesOf(nodes), rows, cols, true, nodes);
    } else {
      var k := FirstWithoutExits(nodes);
      SecondPassAsWrittenFails(header, body, TilesOf(nodes), rows, cols, nodes[..k], k);
    }
  }

  /** deserialize as written reads back what serialize wrote when every node
      has an exit, and fails with ArrayIndexOutOfBoundsException as soon as
      one node has none. */
  lemma AsWrittenRoundTrip(c: CavernRec)
    requires Printable(c)
    ensures (forall i :: 0 <= i < |c.nodes| ==> c.nodes[i].exits != []) ==>
      LoadAsWritten(Lines(c)) == Ok(Loaded(c.rows, c.cols, c.target, TilesOf(c.nodes), ExitsOf(c.nodes)))
    ensures (exists i :: 0 <= i < |c.nodes| && c.nodes[i].exits == []) ==>
      LoadAsWritten(Lines(c)) == Err(IndexOutOfBounds)
  {
    var ls := Lines(c);
    var header := HeaderLine(c.rows, c.cols, c.target);
    var body := ls[1..];
    assert ls == [header] + body;
    forall i | 0 <= i < |body|
      ensures body[i] != header && NodeOfLine(body[i]) == Ok((c.nodes[i].id, TileOfNode(c.nodes[i])))
      ensures c.nodes[i].exits != [] ==>
        ExitsOfLineWith(body[i], TilesOf(c.nodes), c.rows, c.cols, true) == Ok((c.nodes[i].id, c.nodes[i].exits))
      ensures c.nodes[i].exits == [] ==>
        ExitsOfLineWith(body[i], TilesOf(c.nodes), c.rows, c.cols, true) == Err(IndexOutOfBounds)
    {
      NodeLinesRead(c, i);
      assert body[i] == NodeLine(c.nodes[i]);
      NodeLineAsWritten(c.nodes[i], TilesOf(c.nodes), c.rows, c.cols);
    }
    HeaderRoundTrip(c.rows, c.cols, c.target);
    var e :| 0 <= e < |c.nodes| && c.nodes[e].ttype == ENTRANCE;
    TilesOfDistinct(c.nodes, e);
    LoadAsWrittenOf(header, body, c.rows, c.cols, c.target, c.nodes);
  }

  /** The first node without exits. */
  lemma FirstWithoutExits(nodes: seq<NodeRec>) returns (i: int)
    requires exists k :: 0 <= k < |nodes| && nodes[k].exits == []
    ensures 0 <= i < |nodes| && nodes[i].exits == []
    ensures forall j :: 0 <= j < i ==> nodes[j].exits != []
  {
    i := 0;
    while nodes[i].exits != []
      invariant 0 <= i < |nodes|
      invariant forall j :: 0 <= j < i ==> nodes[j].exits != []
      invariant exists k :: i <= k < |nodes| && nodes[k].exits == []
      decreases |nodes| - i
    {
      i := i + 1;
    }
  }

  /** A concrete cavern, one entrance with no exits on a 1 x 1 grid, that
      serialize writes, the corrected deserialize reads back, and
      deserialize as written cannot read back. */
  lemma NoExitsExample()
    ensures var n := NodeRec(0, 0, 0, 0, ENTRANCE, []);
      && Printable(CavernRec(1, 1, 0, [n]))
      && NodeExitsAsWritten(Split(NodeLine(n), '=')) == Err(IndexOutOfBounds)
      && Load(Lines(CavernRec(1, 1, 0, [n]))).Ok?
      && LoadAsWritten(Lines(CavernRec(1, 1, 0, [n]))) == Err(IndexOutOfBounds)
  {
    var n := NodeRec(0, 0, 0, 0, ENTRANCE, []);
    var c := CavernRec(1, 1, 0, [n]);
    NoExitsAsWrittenFails(n);
    assert c.nodes[0].ttype == ENTRANCE && c.nodes[0].exits == [];
    RoundTrip(c);
    AsWrittenRoundTrip(c);
  }
}
