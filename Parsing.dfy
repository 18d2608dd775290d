/**
 * The shape-text parser of src/shape_utils.cpp: whitespace word splitting,
 * number parsing through std::from_chars, the validators and shape makers,
 * one shape per keyword line, and ';'-separated lists of shapes.
 *
 * Every loop of the source is a method here, proved equal to a function that
 * states what it computes; the lemmas are about those functions.
 */
module Parsing {

  import opened Wrappers
  import opened Geometry

  /* ------------------------------------------------------------------- words */

  /** std::isspace in the C locale: space, tab, newline, vertical tab, form feed, carriage return. */
  predicate IsSpace(c: char)
  {
    c == ' ' || c == '\t' || c == '\n' || c == '\U{0B}' || c == '\U{0C}' || c == '\r'
  }

  /** A word: non-empty and free of whitespace. */
  predicate IsWord(w: string)
  {
    w != [] && forall i :: 0 <= i < |w| ==> !IsSpace(w[i])
  }

  /** The length of the run of non-space characters s starts with. */
  function WordLength(s: string): (n: nat)
    ensures n <= |s|
    ensures forall i :: 0 <= i < n ==> !IsSpace(s[i])
    ensures n < |s| ==> IsSpace(s[n])
  {
    if s == [] || IsSpace(s[0]) then 0 else 1 + WordLength(s[1..])
  }

  /** The whitespace-separated words of s, in order. */
  function Words(s: string): seq<string>
    decreases |s|
  {
    if s == [] then []
    else if IsSpace(s[0]) then Words(s[1..])
    else
      var n := WordLength(s);
      [s[..n]] + Words(s[n..])
  }

  /** Every word Words finds is non-empty and free of whitespace. */
  lemma {:induction false} WordsAreWords(s: string)
    ensures forall i :: 0 <= i < |Words(s)| ==> IsWord(Words(s)[i])
    decreases |s|
  {
    if s == [] {
    } else if IsSpace(s[0]) {
      WordsAreWords(s[1..]);
    } else {
      var n := WordLength(s);
      WordsAreWords(s[n..]);
      assert IsWord(s[..n]);
    }
  }

  /** Words of s starting at a non-space character: the leading word, then the words after it. */
  lemma WordsAtWord(s: string)
    requires s != [] && !IsSpace(s[0])
    ensures Words(s) == [s[..WordLength(s)]] + Words(s[WordLength(s)..])
  {
  }

  /** A whitespace character separates: the words of a, c, b are those of a followed by those of b. */
  lemma {:induction false} WordsSplitAtSpace(a: string, c: char, b: string)
    requires IsSpace(c)
    ensures Words(a + [c] + b) == Words(a) + Words(b)
    decreases |a|
  {
    if a == [] {
      assert (a + [c] + b)[1..] == b;
    } else if IsSpace(a[0]) {
      WordsSplitAtSpace(a[1..], c, b);
      SplitAfterSpace(a, c, b);
    } else {
      WordsSplitAtSpace(a[WordLength(a)..], c, b);
      SplitAfterWord(a, c, b);
    }
  }

  /** The step of WordsSplitAtSpace when a starts with a space. */
  lemma SplitAfterSpace(a: string, c: char, b: string)
    requires a != [] && IsSpace(a[0])
    requires Words(a[1..] + [c] + b) == Words(a[1..]) + Words(b)
    ensures Words(a + [c] + b) == Words(a) + Words(b)
  {
    assert (a + [c] + b)[1..] == a[1..] + [c] + b;
  }

  /** The step of WordsSplitAtSpace when a starts with a word. */
  lemma SplitAfterWord(a: string, c: char, b: string)
    requires IsSpace(c) && a != [] && !IsSpace(a[0])
    requires Words(a[WordLength(a)..] + [c] + b) == Words(a[WordLength(a)..]) + Words(b)
    ensures Words(a + [c] + b) == Words(a) + Words(b)
  {
    var s := a + [c] + b;
    var n := WordLength(a);
    var w, t := a[..n], a[n..];
    WordLengthBeforeSpace(a, c, b);
    WordsAtWord(s);
    WordsAtWord(a);
    assert s[..n] == w;
    assert s[n..] == t + [c] + b;
    assert Words(s) == [w] + (Words(t) + Words(b));
    assert Words(a) == [w] + Words(t);
  }

  /** A word of a ends at the latest at the space that follows a. */
  lemma WordLengthBeforeSpace(a: string, c: char, b: string)
    requires IsSpace(c)
    ensures WordLength(a + [c] + b) == WordLength(a)
  {
    var s := a + [c] + b;
    var n := WordLength(a);
    assert forall i :: 0 <= i < n ==> s[i] == a[i];
    if n < |a| { assert s[n] == a[n]; } else { assert s[n] == c; }
    WordLengthUnique(s, n);
  }

  /** WordLength is the one n whose prefix is non-space and which stops at a space or the end. */
  lemma WordLengthUnique(s: string, n: nat)
    requires n <= |s|
    requires forall i :: 0 <= i < n ==> !IsSpace(s[i])
    requires n < |s| ==> IsSpace(s[n])
    ensures WordLength(s) == n
  {
  }

  /** The words of s from start on: what the loop of SplitIntoWords has still to find. */
  function WordsFrom(s: string, start: nat): seq<string>
    requires start <= |s|
  {
    Words(s[start..])
  }

  /** A space at start is skipped. */
  lemma SkipSpace(s: string, start: nat)
    requires start < |s| && IsSpace(s[start])
    ensures WordsFrom(s, start) == WordsFrom(s, start + 1)
  {
    assert s[start..][1..] == s[start + 1..];
  }

  /** The maximal non-space run s[start..end] is the next word. */
  lemma TakeWord(s: string, start: nat, end: nat)
    requires start < end <= |s|
    requires forall i :: start <= i < end ==> !IsSpace(s[i])
    requires end < |s| ==> IsSpace(s[end])
    ensures WordsFrom(s, start) == [s[start..end]] + WordsFrom(s, end)
  {
    var t := s[start..];
    WordLengthUnique(t, end - start);
    WordsAtWord(t);
    assert t[..end - start] == s[start..end];
    assert t[end - start..] == s[end..];
  }

  /** The words of a single word are that word. */
  lemma WordsOfWord(w: string)
    requires IsWord(w)
    ensures Words(w) == [w]
  {
    WordLengthUnique(w, |w|);
    assert w[..|w|] == w;
    assert w[|w|..] == [];
  }

  /**
   * SplitIntoWords: skip whitespace, take the maximal run of non-space
   * characters as the next word, repeat until the end of the string.
   */
  method SplitIntoWords(s: string) returns (words: seq<string>)
    ensures words == Words(s)
  {
    words := [];
    var start := 0;
    assert s[0..] == s;
    while start < |s|
      invariant start <= |s|
      invariant words + WordsFrom(s, start) == Words(s)
    {
      while start < |s| && IsSpace(s[start])
        invariant start <= |s|
        invariant words + WordsFrom(s, start) == Words(s)
      {
        SkipSpace(s, start);
        start := start + 1;
      }
      if start >= |s| {
        break;
      }
      var end := start;
      while end < |s| && !IsSpace(s[end])
        invariant start <= end <= |s|
        invariant forall i :: start <= i < end ==> !IsSpace(s[i])
      {
        end := end + 1;
      }
      TakeWord(s, start, end);
      MoveHead(words, WordsFrom(s, start), [s[start..end]], WordsFrom(s, end), Words(s));
      words := words + [s[start..end]];
      start := end;
    }
    assert s[start..] == [];
    assert words + [] == words;
  }

  /**
   * The parameters of a shape line re-joined with single spaces, as the
   * source's param_str: empty for no words, otherwise the words with one
   * space between neighbours.
   */
  function Join(ws: seq<string>): string
  {
    if ws == [] then ""
    else if |ws| == 1 then ws[0]
    else Join(ws[..|ws| - 1]) + " " + ws[|ws| - 1]
  }

  /** Re-splitting words joined with single spaces gives back the words. */
  lemma {:induction false} WordsOfJoin(ws: seq<string>)
    requires forall i :: 0 <= i < |ws| ==> IsWord(ws[i])
    ensures Words(Join(ws)) == ws
  {
    if ws == [] {
    } else if |ws| == 1 {
      WordsOfWord(ws[0]);
    } else {
      var init, last := ws[..|ws| - 1], ws[|ws| - 1];
      WordsOfJoin(init);
      WordsSplitAtSpace(Join(init), ' ', last);
      assert Join(ws) == Join(init) + [' '] + last;
      WordsOfWord(last);
    }
  }

  /* ----------------------------------------------------------------- numbers */

  /**
   * What std::from_chars reports for a string: whether it parsed a double,
   * how many characters it consumed and the value. The conversion itself is
   * not visible to the model; the parser is given it as a parameter.
   */
  datatype FromCharsResult = FromCharsResult(ok: bool, consumed: nat, value: real)

  /** ParseDouble: a number only when from_chars succeeds and consumes the whole string. */
  function ParseDouble(fromChars: string -> FromCharsResult, s: string): (r: Option<real>)
    ensures r.Some? <==> fromChars(s).ok && fromChars(s).consumed == |s|
    ensures r.Some? ==> r.value == fromChars(s).value
  {
    var result := fromChars(s);
    if result.ok && result.consumed == |s| then Some(result.value) else None
  }

  /** Every token parsed, in order, or none if any token fails. */
  function ParseAll(fromChars: string -> FromCharsResult, tokens: seq<string>): (r: Option<seq<real>>)
    ensures r.Some? ==> |r.value| == |tokens|
  {
    if tokens == [] then Some([])
    else
      var init := ParseAll(fromChars, tokens[..|tokens| - 1]);
      var last := ParseDouble(fromChars, tokens[|tokens| - 1]);
      if init.None? || last.None? then None else Some(init.value + [last.value])
  }

  /** The list parses exactly when each token does, and then holds each token's value in place. */
  lemma {:induction false} ParseAllElements(fromChars: string -> FromCharsResult, tokens: seq<string>)
    ensures ParseAll(fromChars, tokens).Some? <==> forall i :: 0 <= i < |tokens| ==> ParseDouble(fromChars, tokens[i]).Some?
    ensures ParseAll(fromChars, tokens).Some? ==>
              forall i :: 0 <= i < |tokens| ==> ParseAll(fromChars, tokens).value[i] == ParseDouble(fromChars, tokens[i]).value
  {
    if tokens != [] {
      var init := tokens[..|tokens| - 1];
      ParseAllElements(fromChars, init);
      assert forall i :: 0 <= i < |init| ==> init[i] == tokens[i];
    }
  }

  /** ParseDoubles: none for an empty string or one without words, else every word parsed. */
  function Doubles(fromChars: string -> FromCharsResult, s: string): Option<seq<real>>
  {
    if s == [] then None
    else
      var tokens := Words(s);
      if tokens == [] then None else ParseAll(fromChars, tokens)
  }

  /** ParseDoubles, with its loop over the tokens. */
  method ParseDoubles(fromChars: string -> FromCharsResult, s: string) returns (res: Option<seq<real>>)
    ensures res == Doubles(fromChars, s)
  {
    if s == [] {
      return None;
    }
    var tokens := SplitIntoWords(s);
    if tokens == [] {
      return None;
    }
    var result := [];
    for i := 0 to |tokens|
      invariant ParseAll(fromChars, tokens[..i]) == Some(result)
    {
      assert tokens[..i + 1][..i] == tokens[..i];
      var num := ParseDouble(fromChars, tokens[i]);
      if num.None? {
        ParseAllPrefix(fromChars, tokens, i + 1);
        return None;
      }
      result := result + [num.value];
    }
    assert tokens[..|tokens|] == tokens;
    return Some(result);
  }

  /** A token that fails makes every longer list fail. */
  lemma ParseAllPrefix(fromChars: string -> FromCharsResult, tokens: seq<string>, k: nat)
    requires k <= |tokens| && ParseAll(fromChars, tokens[..k]).None?
    ensures ParseAll(fromChars, tokens).None?
  {
    ParseAllElements(fromChars, tokens[..k]);
    ParseAllElements(fromChars, tokens);
    var i :| 0 <= i < k && ParseDouble(fromChars, tokens[..k][i]).None?;
    assert tokens[..k][i] == tokens[i];
  }

  /** Splitting re-joined words and parsing them is parsing the words: the param_str round trip. */
  lemma DoublesOfJoin(fromChars: string -> FromCharsResult, ws: seq<string>)
    requires forall i :: 0 <= i < |ws| ==> IsWord(ws[i])
    ensures Doubles(fromChars, Join(ws)) == if ws == [] then None else ParseAll(fromChars, ws)
  {
    WordsOfJoin(ws);
  }

  /* -------------------------------------------------------------- validators */

  /** RequireSize: the values when there are exactly expected of them. */
  function RequireSize(v: seq<real>, expected: nat): (r: Option<seq<real>>)
    ensures r.Some? <==> |v| == expected
    ensures r.Some? ==> r.value == v
  {
    if |v| == expected then Some(v) else None
  }

  /** RequirePositive: x when x > 0. */
  function RequirePositive(x: real): (r: Option<real>)
    ensures r.Some? <==> x > 0.0
    ensures r.Some? ==> r.value == x
  {
    if x > 0.0 then Some(x) else None
  }

  /** static_cast<int> on a double: truncation toward zero. */
  function Truncate(d: real): (i: int)
    ensures (i as real == d) <==> (d.Floor as real == d)
    ensures 0.0 <= d ==> 0 <= i
  {
    if d >= 0.0 then d.Floor
    else
      NegatedWhole(d);
      -((-d).Floor)
  }

  /** A whole number's floor is itself. */
  lemma FloorOfWhole(x: real, k: int)
    requires x == k as real
    ensures x.Floor == k
  {
  }

  /** d is a whole number exactly when -d is. */
  lemma NegatedWhole(d: real)
    ensures ((-d).Floor as real == -d) <==> (d.Floor as real == d)
  {
    if (-d).Floor as real == -d {
      FloorOfWhole(d, -((-d).Floor));
    }
    if d.Floor as real == d {
      FloorOfWhole(-d, -(d.Floor));
    }
  }

  /** RequireIntegerAtLeast: the integer d when d is a whole number of at least minValue. */
  function RequireIntegerAtLeast(d: real, minValue: int): (r: Option<int>)
    ensures r.Some? <==> d.Floor as real == d && minValue as real <= d
    ensures r.Some? ==> r.value as real == d
  {
    var i := Truncate(d);
    if i as real == d && i >= minValue then Some(i) else None
  }

  /* ------------------------------------------------------------------ makers */

  /** MakeCircle: x, y, radius with radius > 0. */
  function MakeCircle(v: seq<real>): (r: Option<Shape>)
    ensures r.Some? <==> |v| == 3 && v[2] > 0.0
    ensures r.Some? ==> r.value == CircleShape(Circle(Point(v[0], v[1]), v[2])) && r.value.Valid()
  {
    match RequireSize(v, 3)
    case None => None
    case Some(vec) =>
      match RequirePositive(vec[2])
      case None => None
      case Some(radius) => Some(CircleShape(Circle(Point(v[0], v[1]), radius)))
  }

  /** MakeLine: x1, y1, x2, y2. */
  function MakeLine(v: seq<real>): (r: Option<Shape>)
    ensures r.Some? <==> |v| == 4
    ensures r.Some? ==> r.value == LineShape(Line(Point(v[0], v[1]), Point(v[2], v[3])))
  {
    match RequireSize(v, 4)
    case None => None
    case Some(_) => Some(LineShape(Line(Point(v[0], v[1]), Point(v[2], v[3]))))
  }

  /** MakeTriangle: three vertices, six coordinates. */
  function MakeTriangle(v: seq<real>): (r: Option<Shape>)
    ensures r.Some? <==> |v| == 6
    ensures r.Some? ==> r.value == TriangleShape(Triangle(Point(v[0], v[1]), Point(v[2], v[3]), Point(v[4], v[5])))
  {
    match RequireSize(v, 6)
    case None => None
    case Some(_) => Some(TriangleShape(Triangle(Point(v[0], v[1]), Point(v[2], v[3]), Point(v[4], v[5]))))
  }

  /** MakeRectangle: bottom-left x, y, width > 0, height > 0. */
  function MakeRectangle(v: seq<real>): (r: Option<Shape>)
    ensures r.Some? <==> |v| == 4 && v[2] > 0.0 && v[3] > 0.0
    ensures r.Some? ==> r.value == RectangleShape(Rectangle(Point(v[0], v[1]), v[2], v[3])) && r.value.Valid()
  {
    match RequireSize(v, 4)
    case None => None
    case Some(_) =>
      match RequirePositive(v[2])
      case None => None
      case Some(width) =>
        match RequirePositive(v[3])
        case None => None
        case Some(height) => Some(RectangleShape(Rectangle(Point(v[0], v[1]), width, height)))
  }

  /** MakePolygon: a regular polygon from centre x, y, radius > 0 and a whole number of sides >= 3. */
  function MakePolygon(v: seq<real>): (r: Option<Shape>)
    ensures r.Some? <==> |v| == 4 && v[2] > 0.0 && v[3].Floor as real == v[3] && 3.0 <= v[3]
    ensures r.Some? ==> r.value.RegularPolygonShape? && r.value.Valid()
    ensures r.Some? ==> r.value.regular.center == Point(v[0], v[1]) && r.value.regular.radius == v[2]
    ensures r.Some? ==> r.value.regular.sides as real == v[3]
  {
    match RequireSize(v, 4)
    case None => None
    case Some(_) =>
      match RequirePositive(v[2])
      case None => None
      case Some(radius) =>
        match RequireIntegerAtLeast(v[3], 3)
        case None => None
        case Some(sides) => Some(RegularPolygonShape(RegularPolygon(Point(v[0], v[1]), radius, sides)))
  }

  /** A shape constructor: numbers in, a shape or nothing out. */
  type Maker = seq<real> -> Option<Shape>

  /** get_maker: the constructor for the five keywords, none for any other. */
  function GetMaker(keyword: string): (r: Option<Maker>)
    ensures r.Some? <==> keyword in {"circle", "line", "triangle", "rectangle", "polygon"}
  {
    if keyword == "circle" then Some(MakeCircle)
    else if keyword == "line" then Some(MakeLine)
    else if keyword == "triangle" then Some(MakeTriangle)
    else if keyword == "rectangle" then Some(MakeRectangle)
    else if keyword == "polygon" then Some(MakePolygon)
    else None
  }

  /** Whatever a selected constructor builds passes its validator. */
  lemma GetMakerValid(keyword: string, v: seq<real>)
    requires GetMaker(keyword).Some?
    ensures GetMaker(keyword).value(v).Some? ==> GetMaker(keyword).value(v).value.Valid()
  {
  }

  /* ------------------------------------------------------------- one shape */

  /**
   * ParseSingleShape: the first word picks the maker, the remaining words,
   * re-joined with single spaces, are parsed as numbers and handed to it.
   */
  function SingleShape(fromChars: string -> FromCharsResult, token: string): (r: Option<Shape>)
  {
    var parts := Words(token);
    if parts == [] then None
    else
      match GetMaker(parts[0])
      case None => None
      case Some(maker) =>
        match Doubles(fromChars, Join(parts[1..]))
        case None => None
        case Some(v) => maker(v)
  }

  /** Every shape ParseSingleShape returns passed its validator. */
  lemma SingleShapeValid(fromChars: string -> FromCharsResult, token: string)
    ensures SingleShape(fromChars, token).Some? ==> SingleShape(fromChars, token).value.Valid()
  {
    var parts := Words(token);
    if parts != [] && GetMaker(parts[0]).Some? {
      match Doubles(fromChars, Join(parts[1..]))
      case None =>
      case Some(v) => GetMakerValid(parts[0], v);
    }
  }

  /**
   * What SingleShape accepts, without the detour through the joined string:
   * a known keyword followed by at least one word, every word a number, and
   * numbers the maker accepts.
   */
  lemma SingleShapeOfWords(fromChars: string -> FromCharsResult, token: string)
    ensures var parts := Words(token);
            SingleShape(fromChars, token) ==
              if |parts| < 2 || GetMaker(parts[0]).None? then None
              else
                match ParseAll(fromChars, parts[1..])
                case None => None
                case Some(v) => GetMaker(parts[0]).value(v)
  {
    var parts := Words(token);
    WordsAreWords(token);
    if parts != [] {
      DoublesOfJoin(fromChars, parts[1..]);
    }
  }

  /** Words joined with spaces are empty only when there are no words. */
  lemma JoinEmpty(ws: seq<string>)
    requires forall i :: 0 <= i < |ws| ==> IsWord(ws[i])
    ensures Join(ws) == [] <==> ws == []
  {
    if |ws| > 1 {
      assert |Join(ws)| >= 1;
    }
  }

  /** ParseSingleShape, with its loop building param_str. */
  method ParseSingleShape(fromChars: string -> FromCharsResult, token: string) returns (res: Option<Shape>)
    ensures res == SingleShape(fromChars, token)
  {
    var parts := SplitIntoWords(token);
    if parts == [] {
      return None;
    }
    WordsAreWords(token);
    var paramStr := "";
    for i := 1 to |parts|
      invariant paramStr == Join(parts[1..i])
    {
      JoinEmpty(parts[1..i]);
      assert parts[1..i + 1][..i - 1] == parts[1..i];
      if paramStr != "" {
        paramStr := paramStr + " ";
      }
      paramStr := paramStr + parts[i];
    }
    assert parts[1..|parts|] == parts[1..];
    var maker := GetMaker(parts[0]);
    if maker.None? {
      return None;
    }
    var values := ParseDoubles(fromChars, paramStr);
    if values.None? {
      return None;
    }
    return maker.value(values.value);
  }

  /* ------------------------------------------------------------ shape lists */

  /** string_view::find(c, from): the first index at or after from holding c, with npos written as |s|. */
  function Find(s: string, c: char, from: nat): (i: nat)
    requires from <= |s|
    ensures from <= i <= |s|
    ensures forall j :: from <= j < i ==> s[j] != c
    ensures i < |s| ==> s[i] == c
    decreases |s| - from
  {
    if from == |s| || s[from] == c then from else Find(s, c, from + 1)
  }

  /**
   * The ';'-separated pieces of s from start on, in order. A ';' at the very
   * end opens no further piece; empty pieces between separators are kept.
   */
  function PiecesFrom(s: string, start: nat): seq<string>
    decreases |s| - start
  {
    if start >= |s| then []
    else
      var end := Find(s, ';', start);
      [s[start..end]] + PiecesFrom(s, end + 1)
  }

  /** The pieces ParseShapes visits. */
  function Pieces(s: string): seq<string>
  {
    PiecesFrom(s, 0)
  }

  /** No piece holds a ';'. */
  lemma {:induction false} PiecesHaveNoSeparator(s: string, start: nat)
    ensures forall k :: 0 <= k < |PiecesFrom(s, start)| ==> ';' !in PiecesFrom(s, start)[k]
    decreases |s| - start
  {
    if start < |s| {
      var end := Find(s, ';', start);
      PiecesHaveNoSeparator(s, end + 1);
      assert forall j :: 0 <= j < end - start ==> s[start..end][j] == s[start + j];
    }
  }

  /** The piece without its leading whitespace. */
  function TrimFront(t: string): string
  {
    if t != [] && IsSpace(t[0]) then TrimFront(t[1..]) else t
  }

  /** The piece without its trailing whitespace. */
  function TrimBack(t: string): string
  {
    if t != [] && IsSpace(t[|t| - 1]) then TrimBack(t[..|t| - 1]) else t
  }

  /** The piece with whitespace removed at both ends. */
  function Trim(t: string): string
  {
    TrimBack(TrimFront(t))
  }

  /** Trimming neither adds nor loses words. */
  lemma TrimKeepsWords(t: string)
    ensures Words(Trim(t)) == Words(t)
  {
    TrimFrontKeepsWords(t);
    TrimBackKeepsWords(TrimFront(t));
  }

  lemma {:induction false} TrimFrontKeepsWords(t: string)
    ensures Words(TrimFront(t)) == Words(t)
    decreases |t|
  {
    if t != [] && IsSpace(t[0]) {
      TrimFrontKeepsWords(t[1..]);
    }
  }

  lemma {:induction false} TrimBackKeepsWords(t: string)
    ensures Words(TrimBack(t)) == Words(t)
    decreases |t|
  {
    if t != [] && IsSpace(t[|t| - 1]) {
      var init := t[..|t| - 1];
      TrimBackKeepsWords(init);
      WordsSplitAtSpace(init, t[|t| - 1], []);
      assert init + [t[|t| - 1]] + [] == t;
    }
  }

  /** The shape one piece contributes: none for a blank piece or one that does not parse. */
  function PieceShape(fromChars: string -> FromCharsResult, piece: string): seq<Shape>
  {
    var token := Trim(piece);
    if token == [] then []
    else
      match SingleShape(fromChars, token)
      case None => []
      case Some(shape) => [shape]
  }

  /** What each piece contributes, gathered in order. */
  function Gather<T>(f: string -> seq<T>, pieces: seq<string>): seq<T>
  {
    if pieces == [] then [] else f(pieces[0]) + Gather(f, pieces[1..])
  }

  /** What a list of pieces gathers: that of its first piece, then that of the rest. */
  lemma GatherCons<T>(f: string -> seq<T>, piece: string, rest: seq<string>)
    ensures Gather(f, [piece] + rest) == f(piece) + Gather(f, rest)
  {
    assert ([piece] + rest)[1..] == rest;
  }

  /**
   * What the pieces of s from start on contribute, found the way the loop of
   * ParseShapes walks the input: up to the next ';', then past it.
   */
  function GatherFrom<T>(f: string -> seq<T>, s: string, start: nat): seq<T>
    decreases |s| - start
  {
    if start >= |s| then []
    else
      var end := Find(s, ';', start);
      f(s[start..end]) + GatherFrom(f, s, end + 1)
  }

  /** Walking the input gathers exactly what its pieces contribute. */
  lemma {:induction false} GatherFromPieces<T>(f: string -> seq<T>, s: string, start: nat)
    ensures GatherFrom(f, s, start) == Gather(f, PiecesFrom(s, start))
    decreases |s| - start
  {
    if start < |s| {
      var end := Find(s, ';', start);
      var piece, rest := s[start..end], PiecesFrom(s, end + 1);
      GatherFromPieces(f, s, end + 1);
      GatherCons(f, piece, rest);
      calc {
        GatherFrom(f, s, start);
        f(piece) + GatherFrom(f, s, end + 1);
        f(piece) + Gather(f, rest);
        Gather(f, [piece] + rest);
        Gather(f, PiecesFrom(s, start));
      }
    }
  }

  /** One turn of the walk: the piece up to the next ';' comes first. */
  lemma GatherFromStep<T>(f: string -> seq<T>, s: string, start: nat)
    requires start < |s|
    ensures var end := Find(s, ';', start);
            GatherFrom(f, s, start) == f(s[start..end]) + GatherFrom(f, s, end + 1)
  {
  }

  /** PieceShape as a function value. */
  function PieceShapes(fromChars: string -> FromCharsResult): string -> seq<Shape>
  {
    piece => PieceShape(fromChars, piece)
  }

  lemma PieceShapesApply(fromChars: string -> FromCharsResult, piece: string)
    ensures PieceShapes(fromChars)(piece) == PieceShape(fromChars, piece)
  {
  }

  /** The shapes of the pieces, in order. */
  function ShapesOf(fromChars: string -> FromCharsResult, pieces: seq<string>): seq<Shape>
  {
    Gather(PieceShapes(fromChars), pieces)
  }

  /** ParseShapes: every ';'-separated piece that parses, in input order. */
  function Shapes(fromChars: string -> FromCharsResult, input: string): seq<Shape>
  {
    GatherFrom(PieceShapes(fromChars), input, 0)
  }

  /** ParseShapes in terms of the pieces: the shapes of the ';'-separated pieces, in order. */
  lemma ShapesArePieceShapes(fromChars: string -> FromCharsResult, input: string)
    ensures Shapes(fromChars, input) == ShapesOf(fromChars, Pieces(input))
  {
    GatherFromPieces(PieceShapes(fromChars), input, 0);
  }

  /** The two loops of ParseShapes that strip whitespace from both ends of a piece. */
  method TrimSpaces(piece: string) returns (token: string)
    ensures token == Trim(piece)
  {
    token := piece;
    while token != [] && IsSpace(token[0])
      invariant TrimFront(token) == TrimFront(piece)
    {
      token := token[1..];
    }
    while token != [] && IsSpace(token[|token| - 1])
      invariant TrimBack(token) == Trim(piece)
    {
      token := token[..|token| - 1];
    }
  }


  /** Trim one piece and parse it unless it is blank. */
  method ParsePiece(fromChars: string -> FromCharsResult, piece: string) returns (found: seq<Shape>)
    ensures found == PieceShape(fromChars, piece)
  {
    found := [];
    var token := TrimSpaces(piece);
    if token != [] {
      var shape := ParseSingleShape(fromChars, token);
      if shape.Some? {
        found := [shape.value];
      }
    }
  }

  /**
   * The body of the loop of ParseShapes: cut the piece up to the next ';'
   * and parse it; next is where the loop goes on.
   */
  method NextPiece(fromChars: string -> FromCharsResult, input: string, start: nat) returns (found: seq<Shape>, next: nat)
    requires start < |input|
    ensures next == Find(input, ';', start) + 1
    ensures GatherFrom(PieceShapes(fromChars), input, start) == found + GatherFrom(PieceShapes(fromChars), input, next)
  {
    var end := Find(input, ';', start);
    next := end + 1;
    GatherFromStep(PieceShapes(fromChars), input, start);
    PieceShapesApply(fromChars, input[start..end]);
    found := ParsePiece(fromChars, input[start..end]);
  }

  /** ParseShapes, with its loop over the pieces. */
  method ParseShapes(fromChars: string -> FromCharsResult, input: string) returns (result: seq<Shape>)
    ensures result == Shapes(fromChars, input)
  {
    result := [];
    var start := 0;
    while start < |input|
      invariant result + GatherFrom(PieceShapes(fromChars), input, start) == Shapes(fromChars, input)
      decreases |input| - start
    {
      var found, next := NextPiece(fromChars, input, start);
      MoveHead(result, GatherFrom(PieceShapes(fromChars), input, start), found,
               GatherFrom(PieceShapes(fromChars), input, next), Shapes(fromChars, input));
      result := result + found;
      start := next;
    }
    assert result + [] == result;
  }

  /** Every shape ParseShapes returns passed its validator. */
  lemma {:induction false} ShapesOfValid(fromChars: string -> FromCharsResult, pieces: seq<string>)
    ensures forall k :: 0 <= k < |ShapesOf(fromChars, pieces)| ==> ShapesOf(fromChars, pieces)[k].Valid()
    ensures |ShapesOf(fromChars, pieces)| <= |pieces|
  {
    if pieces != [] {
      ShapesOfValid(fromChars, pieces[1..]);
      SingleShapeValid(fromChars, Trim(pieces[0]));
    }
  }

  /** Each piece yields its shape exactly when its trimmed text parses as one. */
  lemma {:induction false} ShapesOfPieces(fromChars: string -> FromCharsResult, pieces: seq<string>, shape: Shape)
    ensures shape in ShapesOf(fromChars, pieces) <==> exists k :: 0 <= k < |pieces| && Yields(fromChars, pieces[k], shape)
  {
    if pieces != [] {
      var first, rest := pieces[0], pieces[1..];
      ShapesOfPieces(fromChars, rest, shape);
      assert shape in PieceShape(fromChars, first) <==> Yields(fromChars, first, shape);
      if shape in ShapesOf(fromChars, pieces) {
        if shape in ShapesOf(fromChars, rest) {
          var k :| 0 <= k < |rest| && Yields(fromChars, rest[k], shape);
          assert pieces[k + 1] == rest[k];
        } else {
          assert Yields(fromChars, pieces[0], shape);
        }
      } else {
        forall k | 0 <= k < |pieces|
          ensures !Yields(fromChars, pieces[k], shape)
        {
          if k > 0 {
            assert pieces[k] == rest[k - 1];
          }
        }
      }
    }
  }

  /** The piece, trimmed, is not blank and parses as the shape. */
  ghost predicate Yields(fromChars: string -> FromCharsResult, piece: string, shape: Shape)
  {
    Trim(piece) != [] && SingleShape(fromChars, Trim(piece)) == Some(shape)
  }
}
