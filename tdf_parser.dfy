/**
 * The TDF parser: a line-oriented recursive-descent reader of blocks
 *
 *     [name]
 *     {
 *       key=value;
 *       [child] { ... }
 *     }
 *
 * that strips `//` comments, checks the `{`/`}` framing, reports errors with
 * the number of lines read so far, and hands what it reads to an adapter as
 * BeginBlock / AddProperty / EndBlock events. The text reader is the sequence
 * of its lines; the adapter is the log of events it received.
 */
module Tdf {
  import opened Geometry
  import opened Strings

  // ---------------------------------------------------------------------------
  // Pure line handling

  predicate StartsWith(s: string, p: string) {
    p <= s
  }

  predicate EndsWith(s: string, p: string) {
    |p| <= |s| && s[|s| - |p|..] == p
  }

  /** Removes everything from the first `//` on. */
  function StripComment(line: string): (r: string)
    ensures r <= line
    ensures forall k :: !OccursAt(r, "//", k)
    ensures forall k :: 0 <= k < |r| ==> !OccursAt(line, "//", k)
    ensures |r| < |line| ==> OccursAt(line, "//", |r|)
  {
    match IndexOf(line, "//")
    case None => line
    case Some(i) =>
      SliceOccurrence(line, "//", 0, i);
      assert line[0..i] == line[..i];
      line[..i]
  }

  /** `ExtractContent`: the line without its comment, trimmed. The content holds no comment marker. */
  function ExtractContent(line: string): (r: string)
    ensures forall k :: !OccursAt(r, "//", k)
  {
    var stripped := StripComment(line);
    TrimKeepsNoOccurrence(stripped, "//");
    Trim(stripped)
  }

  lemma TrimKeepsNoOccurrence(s: string, pat: string)
    requires forall k :: !OccursAt(s, pat, k)
    ensures forall k :: !OccursAt(Trim(s), pat, k)
  {
    var i, j := TrimIsSlice(s, IsWhiteSpace);
    NoOccurrenceInSlice(s, pat, i, j);
  }

  /** Extracting the content of a line's content changes nothing. */
  lemma ExtractContentIdempotent(line: string)
    ensures ExtractContent(ExtractContent(line)) == ExtractContent(line)
  {
    var c := ExtractContent(line);
    assert IndexOf(c, "//").None?;
    assert StripComment(c) == c;
    TrimmedEnds(StripComment(line), IsWhiteSpace);
    TrimIdentity(c, IsWhiteSpace);
  }

  /** `ParseBlockName`: the text between a leading `[` and a trailing `]`. */
  function ParseBlockName(nameLine: string): (r: Option<string>)
    ensures r.Some? <==> StartsWith(nameLine, "[") && EndsWith(nameLine, "]")
    ensures r.Some? ==> nameLine == "[" + r.value + "]"
  {
    if StartsWith(nameLine, "[") && EndsWith(nameLine, "]") then
      assert nameLine[0] == '[' && nameLine[|nameLine| - 1] == ']';
      Some(nameLine[1..|nameLine| - 1])
    else
      None
  }

  /** A bracketed name parses back to the name, whatever characters it holds. */
  lemma {:induction false} BlockNameRoundTrip(name: string)
    ensures ParseBlockName("[" + name + "]") == Some(name)
  {
    var line := "[" + name + "]";
    assert StartsWith(line, "[") && EndsWith(line, "]");
    assert line[1..|line| - 1] == name;
  }

  /** Drops everything from the first `;` on (the statement terminator and what follows). */
  function ChompStatement(line: string): (r: string)
    ensures r <= line && ';' !in r
    ensures |r| == |line| || line[|r|] == ';'
  {
    match IndexOf(line, ";")
    case None =>
      assert forall k :: 0 <= k < |line| ==> !OccursAt(line, ";", k);
      assert forall k :: 0 <= k < |line| ==> line[k] != ';' by {
        forall k | 0 <= k < |line| ensures line[k] != ';' {
          assert !OccursAt(line, ";", k) && line[k..k + 1] == [line[k]];
        }
      }
      line
    case Some(i) =>
      assert forall k :: 0 <= k < i ==> line[k] != ';' by {
        forall k | 0 <= k < i ensures line[k] != ';' {
          assert !OccursAt(line, ";", k) && line[k..k + 1] == [line[k]];
        }
      }
      line[..i]
  }

  /** `Split(new[] { c }, 2)`: the text before the first `c` and everything after it. */
  function SplitAtFirst(s: string, c: char): (r: Option<(string, string)>)
    ensures r.None? <==> c !in s
    ensures r.Some? ==> s == r.value.0 + [c] + r.value.1 && c !in r.value.0
  {
    match IndexOf(s, [c])
    case None =>
      assert forall k :: 0 <= k < |s| ==> s[k] != c by {
        forall k | 0 <= k < |s| ensures s[k] != c {
          assert !OccursAt(s, [c], k) && s[k..k + 1] == [s[k]];
        }
      }
      None
    case Some(i) =>
      assert s[i..i + 1] == [c];
      assert forall k :: 0 <= k < i ==> s[k] != c by {
        forall k | 0 <= k < i ensures s[k] != c {
          assert !OccursAt(s, [c], k) && s[k..k + 1] == [s[k]];
        }
      }
      assert s == s[..i] + [c] + s[i + 1..];
      Some((s[..i], s[i + 1..]))
  }

  datatype PropertyParse = Property(key: string, value: string) | NotAProperty(body: string)

  /**
   * `ReadBlockLine` without its side effects: chomp the statement at `;`,
   * split at the first `=` only, and trim both halves. A body without `=` is
   * not a property; the body is what the error message reports.
   */
  function ParseProperty(line: string): (r: PropertyParse)
    ensures r.NotAProperty? <==> '=' !in ChompStatement(line)
    ensures r.NotAProperty? ==> r.body == ChompStatement(line)
    ensures r.Property? ==>
      var parts := SplitAtFirst(ChompStatement(line), '=').value;
      r.key == Trim(parts.0) && r.value == Trim(parts.1)
  {
    var body := ChompStatement(line);
    match SplitAtFirst(body, '=')
    case None => NotAProperty(body)
    case Some((key, value)) => Property(Trim(key), Trim(value))
  }

  /**
   * The key never holds `=` or `;` and the value never holds `;`; the value
   * keeps every `=` after the first.
   */
  lemma PropertyParts(line: string)
    requires ParseProperty(line).Property?
    ensures var p := ParseProperty(line);
      '=' !in p.key && ';' !in p.key && ';' !in p.value
  {
    var body := ChompStatement(line);
    var parts := SplitAtFirst(body, '=').value;
    assert body == parts.0 + ['='] + parts.1;
    assert ';' !in parts.0 && ';' !in parts.1;
    TrimKeepsOut(parts.0, IsWhiteSpace, '=');
    TrimKeepsOut(parts.0, IsWhiteSpace, ';');
    TrimKeepsOut(parts.1, IsWhiteSpace, ';');
  }

  /** Writing a trimmed key and value as `key=value;` and parsing the line gives them back. */
  lemma PropertyRoundTrip(key: string, value: string)
    requires Trim(key) == key && Trim(value) == value
    requires '=' !in key && ';' !in key && ';' !in value
    ensures ParseProperty(key + "=" + value + ";") == Property(key, value)
  {
    var line := key + "=" + value + ";";
    var body := key + "=" + value;
    assert line == body + ";";
    assert ';' !in body;
    assert IndexOf(line, ";") == Some(|body|) by {
      assert OccursAt(line, ";", |body|);
      forall k | 0 <= k < |body| ensures !OccursAt(line, ";", k) {
        assert line[k] == body[k];
        assert line[k..k + 1] == [line[k]];
      }
    }
    assert ChompStatement(line) == body;
    var parts := SplitAtFirst(body, '=').value;
    assert body == key + ['='] + value;
    SplitAtFirstUnique(body, '=', key, value);
  }

  lemma SplitAtFirstUnique(s: string, c: char, a: string, b: string)
    requires s == a + [c] + b && c !in a
    ensures SplitAtFirst(s, c) == Some((a, b))
  {
    assert OccursAt(s, [c], |a|) by {
      assert s[|a|..|a| + 1] == [c];
    }
    forall k | 0 <= k < |a| ensures !OccursAt(s, [c], k) {
      assert s[k..k + 1] == [a[k]];
    }
    assert IndexOf(s, [c]) == Some(|a|);
    assert s[..|a|] == a && s[|a| + 1..] == b;
  }

  // ---------------------------------------------------------------------------
  // Adapter events and their nesting

  /** The calls `ITdfNodeAdapter` receives. */
  datatype AdapterEvent = BeginBlock(name: string) | AddProperty(key: string, value: string) | EndBlock

  function Step(e: AdapterEvent): int {
    match e
    case BeginBlock(_) => 1
    case EndBlock => -1
    case AddProperty(_, _) => 0
  }

  /** Open blocks after the events `s`: begins minus ends. */
  function Depth(s: seq<AdapterEvent>): int {
    if s == [] then 0 else Depth(s[..|s| - 1]) + Step(s[|s| - 1])
  }

  function Min(a: int, b: int): int {
    if a <= b then a else b
  }

  /** The fewest blocks open at any point of `s`, counting from none before it. */
  function LowWater(s: seq<AdapterEvent>): (r: int)
    ensures r <= 0 && r <= Depth(s)
  {
    if s == [] then 0 else Min(LowWater(s[..|s| - 1]), Depth(s))
  }

  /** Every EndBlock closes an earlier BeginBlock and none is left open. */
  predicate Balanced(s: seq<AdapterEvent>) {
    Depth(s) == 0 && LowWater(s) == 0
  }

  /** Every property in `s` arrives while some block is open, given `d` blocks open before `s`. */
  predicate EnclosedFrom(s: seq<AdapterEvent>, d: int) {
    s == [] || (EnclosedFrom(s[..|s| - 1], d) && (s[|s| - 1].AddProperty? ==> d + Depth(s[..|s| - 1]) >= 1))
  }

  predicate Enclosed(s: seq<AdapterEvent>) {
    EnclosedFrom(s, 0)
  }

  /** One block: its begin, a balanced body, its end. */
  predicate IsBlock(s: seq<AdapterEvent>, name: string) {
    |s| >= 2 && s[0] == BeginBlock(name) && s[|s| - 1] == EndBlock && Balanced(s[1..|s| - 1])
  }

  /** `LowWater` is the minimum of the depths of all prefixes. */
  lemma {:induction false} LowWaterPrefixes(s: seq<AdapterEvent>)
    ensures forall k :: 0 <= k <= |s| ==> LowWater(s) <= Depth(s[..k])
    ensures exists k :: 0 <= k <= |s| && LowWater(s) == Depth(s[..k])
  {
    if s == [] {
      assert s[..0] == s;
    } else {
      var p := s[..|s| - 1];
      LowWaterPrefixes(p);
      forall k | 0 <= k <= |s| ensures LowWater(s) <= Depth(s[..k]) {
        if k < |s| {
          assert s[..k] == p[..k];
        } else {
          assert s[..k] == s;
        }
      }
      if LowWater(s) == Depth(s) {
        assert s[..|s|] == s;
      } else {
        var k :| 0 <= k <= |p| && LowWater(p) == Depth(p[..k]);
        assert s[..k] == p[..k];
      }
    }
  }

  /** `Balanced` agrees with its direct reading: depth zero at the end and never below zero on the way. */
  lemma BalancedPrefixes(s: seq<AdapterEvent>)
    ensures Balanced(s) <==> Depth(s) == 0 && forall k :: 0 <= k <= |s| ==> Depth(s[..k]) >= 0
  {
    LowWaterPrefixes(s);
  }

  /** `EnclosedFrom` agrees with its direct reading: at every property, at least one block is open. */
  lemma {:induction false} EnclosedPrefixes(s: seq<AdapterEvent>, d: int)
    ensures EnclosedFrom(s, d) <==> forall k :: 0 <= k < |s| && s[k].AddProperty? ==> d + Depth(s[..k]) >= 1
  {
    if s != [] {
      var p := s[..|s| - 1];
      EnclosedPrefixes(p, d);
      assert forall k :: 0 <= k < |p| ==> s[k] == p[k] && s[..k] == p[..k];
    }
  }

  lemma {:induction false} DepthAppend(a: seq<AdapterEvent>, b: seq<AdapterEvent>)
    ensures Depth(a + b) == Depth(a) + Depth(b)
  {
    if b == [] {
      assert a + b == a;
    } else {
      var b' := b[..|b| - 1];
      assert (a + b)[..|a + b| - 1] == a + b';
      assert (a + b)[|a + b| - 1] == b[|b| - 1];
      DepthAppend(a, b');
    }
  }

  lemma {:induction false} LowWaterAppend(a: seq<AdapterEvent>, b: seq<AdapterEvent>)
    ensures LowWater(a + b) == Min(LowWater(a), Depth(a) + LowWater(b))
  {
    if b == [] {
      assert a + b == a;
    } else {
      var b' := b[..|b| - 1];
      assert (a + b)[..|a + b| - 1] == a + b';
      LowWaterAppend(a, b');
      DepthAppend(a, b);
    }
  }

  lemma {:induction false} EnclosedAppend(a: seq<AdapterEvent>, b: seq<AdapterEvent>, d: int)
    ensures EnclosedFrom(a + b, d) <==> EnclosedFrom(a, d) && EnclosedFrom(b, d + Depth(a))
  {
    if b == [] {
      assert a + b == a;
    } else {
      var b' := b[..|b| - 1];
      assert (a + b)[..|a + b| - 1] == a + b';
      assert (a + b)[|a + b| - 1] == b[|b| - 1];
      EnclosedAppend(a, b', d);
      DepthAppend(a, b');
    }
  }

  /** Inside a block (one more open) every property of a body that never closes more than it opened is enclosed. */
  lemma {:induction false} InsideIsEnclosed(s: seq<AdapterEvent>)
    requires LowWater(s) >= 0
    ensures EnclosedFrom(s, 1)
  {
    if s != [] {
      InsideIsEnclosed(s[..|s| - 1]);
    }
  }

  /** Concatenating balanced (and enclosed) event sequences keeps them so. */
  lemma BalancedAppend(a: seq<AdapterEvent>, b: seq<AdapterEvent>)
    requires Balanced(a) && Balanced(b)
    ensures Balanced(a + b)
    ensures Enclosed(a) && Enclosed(b) ==> Enclosed(a + b)
  {
    DepthAppend(a, b);
    LowWaterAppend(a, b);
    EnclosedAppend(a, b, 0);
  }

  /** The depth, low water and enclosure of a single event. */
  lemma OneEvent(e: AdapterEvent, d: int)
    ensures Depth([e]) == Step(e) && LowWater([e]) == Min(0, Step(e))
    ensures EnclosedFrom([e], d) <==> (e.AddProperty? ==> d >= 1)
  {
    assert [e][..0] == [];
  }

  /** A block built around a balanced body is balanced, and all its properties are enclosed. */
  lemma WrapBlock(name: string, body: seq<AdapterEvent>)
    requires Balanced(body)
    ensures IsBlock([BeginBlock(name)] + body + [EndBlock], name)
    ensures Balanced([BeginBlock(name)] + body + [EndBlock])
    ensures Enclosed([BeginBlock(name)] + body + [EndBlock])
  {
    var open := [BeginBlock(name)];
    var s := open + body + [EndBlock];
    assert s[1..|s| - 1] == body;
    OneEvent(BeginBlock(name), 0);
    OneEvent(EndBlock, 1);
    DepthAppend(open, body);
    LowWaterAppend(open, body);
    DepthAppend(open + body, [EndBlock]);
    LowWaterAppend(open + body, [EndBlock]);
    InsideIsEnclosed(body);
    EnclosedAppend(open, body, 0);
    EnclosedAppend(open + body, [EndBlock], 0);
  }

  /** A single property is balanced. */
  lemma PropertyIsBalanced(s: seq<AdapterEvent>)
    requires |s| == 1 && s[0].AddProperty?
    ensures Balanced(s)
  {
    assert s[..0] == [];
  }

  /** The events from `start` stay balanced (and enclosed) when a balanced (and enclosed) run is appended. */
  lemma ExtendBalanced(before: seq<AdapterEvent>, after: seq<AdapterEvent>, start: nat)
    requires start <= |before| && before <= after
    requires Balanced(before[start..]) && Balanced(after[|before|..])
    ensures Balanced(after[start..])
    ensures Enclosed(before[start..]) && Enclosed(after[|before|..]) ==> Enclosed(after[start..])
  {
    assert after[start..] == before[start..] + after[|before|..];
    BalancedAppend(before[start..], after[|before|..]);
  }

  lemma BlockIsBalanced(s: seq<AdapterEvent>, name: string)
    requires IsBlock(s, name)
    ensures Balanced(s) && Enclosed(s)
  {
    WrapBlock(name, s[1..|s| - 1]);
    assert s == [BeginBlock(name)] + s[1..|s| - 1] + [EndBlock];
  }

  // ---------------------------------------------------------------------------
  // Errors

  /**
   * A `ParseException` carries the line count and what was expected; a
   * `NullReferenceException` escapes when the input ends inside a block body.
   */
  datatype TdfError = ParseError(line: nat, expected: string, actual: string) | NullReference

  datatype Status = Success | Failure(error: TdfError)

  /** The exception's message, `line N: Expected X, got Y`. */
  function Message(e: TdfError): (m: string)
    requires e.ParseError?
    ensures StartsWith(m, "line " + NatToString(e.line) + ": Expected " + e.expected + ", got ")
    ensures EndsWith(m, ", got " + e.actual)
  {
    var m := "line " + NatToString(e.line) + ": Expected " + e.expected + ", got " + e.actual;
    assert m[|m| - |", got " + e.actual|..] == ", got " + e.actual;
    m
  }

  // ---------------------------------------------------------------------------
  // What the parser reads
  //
  // The reading relation is stated over the three line readers as parameters
  // (`content`, `header`, `property`), so that reasoning about the order of
  // lines and events never has to look inside `ExtractContent`,
  // `ParseBlockName` or `ParseProperty`.

  /** The non-empty values of `content` over `lines[lo..hi]`, in order. */
  function Kept(content: string -> string, lines: seq<string>, lo: int, hi: int): seq<string>
    requires 0 <= lo <= hi <= |lines|
    decreases hi - lo
  {
    if lo == hi then []
    else Kept(content, lines, lo, hi - 1) + (if content(lines[hi - 1]) == "" then [] else [content(lines[hi - 1])])
  }

  lemma {:induction false} KeptSplit(content: string -> string, lines: seq<string>, i: int, j: int, k: int)
    requires 0 <= i <= j <= k <= |lines|
    ensures Kept(content, lines, i, k) == Kept(content, lines, i, j) + Kept(content, lines, j, k)
    decreases k - j
  {
    if j < k {
      KeptSplit(content, lines, i, j, k - 1);
    }
  }

  lemma {:induction false} NothingKept(content: string -> string, lines: seq<string>, lo: int, hi: int)
    requires 0 <= lo <= hi <= |lines|
    ensures Kept(content, lines, lo, hi) == [] <==> forall k :: lo <= k < hi ==> content(lines[k]) == ""
    decreases hi - lo
  {
    if lo < hi {
      NothingKept(content, lines, lo, hi - 1);
      var last := content(lines[hi - 1]);
      assert Kept(content, lines, lo, hi) == Kept(content, lines, lo, hi - 1) + (if last == "" then [] else [last]);
      assert (forall k :: lo <= k < hi ==> content(lines[k]) == "")
        <==> (forall k :: lo <= k < hi - 1 ==> content(lines[k]) == "") && last == "";
    }
  }

  /** The contents of the interesting lines among `lines[lo..hi]`, in the order they are read. */
  function Interesting(lines: seq<string>, lo: int, hi: int): seq<string>
    requires 0 <= lo <= hi <= |lines|
  {
    Kept(ExtractContent, lines, lo, hi)
  }

  /** Nothing is interesting exactly when every line is blank once its comment is stripped. */
  lemma NothingInteresting(lines: seq<string>, lo: int, hi: int)
    requires 0 <= lo <= hi <= |lines|
    ensures Interesting(lines, lo, hi) == [] <==> forall k :: lo <= k < hi ==> ExtractContent(lines[k]) == ""
  {
    NothingKept(ExtractContent, lines, lo, hi);
  }

  /**
   * `toks`, the interesting lines in the order they are read, produce the
   * adapter events `evs` when headers are read by `header` and statements by
   * `property`: a block begins with a header line and a `{` line, a property
   * is one line that does not start with `[`, and a block ends with a `}`
   * line.
   */
  ghost predicate ReadsWith(header: string -> Option<string>, property: string -> PropertyParse,
                            toks: seq<string>, evs: seq<AdapterEvent>)
    decreases |evs|
  {
    if evs == [] then toks == []
    else match evs[0]
      case BeginBlock(name) =>
        |toks| >= 2 && header(toks[0]) == Some(name) && toks[1] == "{" && ReadsWith(header, property, toks[2..], evs[1..])
      case AddProperty(key, value) =>
        |toks| >= 1 && !StartsWith(toks[0], "[") && property(toks[0]) == Property(key, value)
        && ReadsWith(header, property, toks[1..], evs[1..])
      case EndBlock =>
        |toks| >= 1 && toks[0] == "}" && ReadsWith(header, property, toks[1..], evs[1..])
  }

  /** The parser reads `toks` as `evs`: headers by `ParseBlockName`, statements by `ParseProperty`. */
  ghost predicate ReadsAs(toks: seq<string>, evs: seq<AdapterEvent>) {
    ReadsWith(ParseBlockName, ParseProperty, toks, evs)
  }

  /** Reading one run of lines after another produces the one run of events after the other. */
  lemma {:induction false} ReadsWithAppend(header: string -> Option<string>, property: string -> PropertyParse,
                                           t1: seq<string>, e1: seq<AdapterEvent>, t2: seq<string>, e2: seq<AdapterEvent>)
    requires ReadsWith(header, property, t1, e1) && ReadsWith(header, property, t2, e2)
    ensures ReadsWith(header, property, t1 + t2, e1 + e2)
    decreases |e1|
  {
    if e1 == [] {
      assert t1 + t2 == t2 && e1 + e2 == e2;
    } else {
      var n := if e1[0].BeginBlock? then 2 else 1;
      assert (t1 + t2)[n..] == t1[n..] + t2;
      assert (e1 + e2)[1..] == e1[1..] + e2;
      assert (e1 + e2)[0] == e1[0];
      ReadsWithAppend(header, property, t1[n..], e1[1..], t2, e2);
    }
  }

  /**
   * When headers start with `[` and `}` is neither a header nor a property,
   * every line is read one way only.
   */
  lemma {:induction false} ReadsWithUnique(header: string -> Option<string>, property: string -> PropertyParse,
                                           toks: seq<string>, e1: seq<AdapterEvent>, e2: seq<AdapterEvent>)
    requires forall t :: header(t).Some? ==> StartsWith(t, "[")
    requires header("}").None? && property("}").NotAProperty?
    requires ReadsWith(header, property, toks, e1) && ReadsWith(header, property, toks, e2)
    ensures e1 == e2
    decreases |e1|
  {
    if e1 != [] && e2 != [] {
      match e1[0]
      case BeginBlock(_) =>
        assert e2[0].BeginBlock?;
        ReadsWithUnique(header, property, toks[2..], e1[1..], e2[1..]);
      case AddProperty(_, _) =>
        assert e2[0].AddProperty?;
        ReadsWithUnique(header, property, toks[1..], e1[1..], e2[1..]);
      case EndBlock =>
        assert e2[0].EndBlock?;
        ReadsWithUnique(header, property, toks[1..], e1[1..], e2[1..]);
      assert e1 == [e1[0]] + e1[1..] && e2 == [e2[0]] + e2[1..];
    }
  }

  /** The lines read determine the events: no sequence of lines can be read two ways. */
  lemma ReadsAsUnique(toks: seq<string>, e1: seq<AdapterEvent>, e2: seq<AdapterEvent>)
    requires ReadsAs(toks, e1) && ReadsAs(toks, e2)
    ensures e1 == e2
  {
    assert ParseProperty("}").NotAProperty? by {
      assert '=' !in ChompStatement("}");
    }
    ReadsWithUnique(ParseBlockName, ParseProperty, toks, e1, e2);
  }

  /** A statement read after a run of statements: the lines and events of both, balanced as both are. */
  lemma StatementStep(header: string -> Option<string>, property: string -> PropertyParse,
                      toks: seq<string>, evs: seq<AdapterEvent>, more: seq<string>, stmt: seq<AdapterEvent>)
    requires Balanced(evs) && ReadsWith(header, property, toks, evs)
    requires Balanced(stmt) && ReadsWith(header, property, more, stmt)
    ensures Balanced(evs + stmt) && ReadsWith(header, property, toks + more, evs + stmt)
  {
    BalancedAppend(evs, stmt);
    ReadsWithAppend(header, property, toks, evs, more, stmt);
  }

  /** A header, a `{` line and a body read as events, framed by the block's begin and end. */
  lemma ReadsBlock(header: string -> Option<string>, property: string -> PropertyParse,
                   line: string, name: string, read: seq<string>, body: seq<AdapterEvent>)
    requires header(line) == Some(name)
    requires |read| >= 1 && read[0] == "{" && ReadsWith(header, property, read[1..], body + [EndBlock])
    ensures ReadsWith(header, property, [line] + read, [BeginBlock(name)] + body + [EndBlock])
  {
    var toks := [line] + read;
    var evs := [BeginBlock(name)] + body + [EndBlock];
    assert toks[2..] == read[1..] && evs[1..] == body + [EndBlock];
  }

  /** A property line reads as its one AddProperty event. */
  lemma ReadsProperty(header: string -> Option<string>, property: string -> PropertyParse,
                      line: string, evs: seq<AdapterEvent>)
    requires !StartsWith(line, "[") && property(line).Property?
    requires evs == [AddProperty(property(line).key, property(line).value)]
    ensures ReadsWith(header, property, [line], evs)
  {
    assert [line][1..] == [] && evs[1..] == [];
  }

  /** The events of successive blocks, one after the other. */
  function Concat(blocks: seq<seq<AdapterEvent>>): seq<AdapterEvent> {
    if blocks == [] then [] else blocks[0] + Concat(blocks[1..])
  }

  /**
   * What `Load` has read so far: the lines `toks` produced the events `evs`,
   * which are balanced with every property inside a block, and which are the
   * blocks `blocks`, one per header line of `headers`.
   */
  ghost predicate LoadedWith(header: string -> Option<string>, property: string -> PropertyParse,
                             toks: seq<string>, evs: seq<AdapterEvent>, headers: seq<string>, blocks: seq<seq<AdapterEvent>>)
  {
    && Balanced(evs) && Enclosed(evs) && ReadsWith(header, property, toks, evs)
    && |blocks| == |headers| && evs == Concat(blocks)
    && forall i :: 0 <= i < |headers| ==> header(headers[i]).Some? && IsBlock(blocks[i], header(headers[i]).value)
  }

  /** The events from `start` on, after more were appended, are the earlier ones followed by the new ones. */
  lemma EventsFrom(before: seq<AdapterEvent>, after: seq<AdapterEvent>, start: int)
    requires 0 <= start <= |before| && before <= after
    ensures after[start..] == before[start..] + after[|before|..]
  {
  }

  /** Events appended after `before`: `before` is a prefix, and what follows it is exactly what was appended. */
  lemma Appended(before: seq<AdapterEvent>, more: seq<AdapterEvent>)
    ensures before <= before + more && (before + more)[|before|..] == more
  {
  }

  /** A block's begin, body and end appended one after another are its events appended at once. */
  lemma FramedAppend(before: seq<AdapterEvent>, name: string, body: seq<AdapterEvent>)
    ensures before + [BeginBlock(name)] + body + [EndBlock] == before + ([BeginBlock(name)] + body + [EndBlock])
  {
  }

  /** Appending is associative. */
  lemma Assoc(a: seq<AdapterEvent>, b: seq<AdapterEvent>, c: seq<AdapterEvent>)
    ensures a + b + c == a + (b + c)
  {
  }

  /** A prefix of a prefix is a prefix. */
  lemma PrefixTrans(a: seq<AdapterEvent>, b: seq<AdapterEvent>, c: seq<AdapterEvent>)
    requires a <= b && b <= c
    ensures a <= c
  {
    assert c[..|a|] == b[..|a|];
  }

  // ---------------------------------------------------------------------------
  // The parser's reading, line by line
  //
  // `StatementsOf`, `StatementOf`, `BlockOf`, `BodyOf` and `FileOf` follow
  // the recursive descent of `ReadStatements`, `ReadStatement`, `ReadBlock`,
  // `ReadBlockBody` and `Load` over the interesting lines ahead: each gives
  // the events read and the number of lines used, or why reading stops.

  /**
   * Why reading stops: a line other than the one expected, the end of the
   * input where a line was expected, or the end of the input inside a block.
   */
  datatype Fault = Expected(expected: string, actual: string) | Missing(expected: string) | EndOfInput

  /**
   * What the lines ahead read as: the events and the number of lines used;
   * or, when reading stops, the fault, the events passed on before it and
   * the number of lines read up to and including the one at fault.
   */
  datatype Reading = Parsed(evs: seq<AdapterEvent>, used: nat) | Stuck(fault: Fault, evs: seq<AdapterEvent>, used: nat)

  /** Reading stopped at the end of the input, which the reader counts as one more line. */
  predicate Ended(r: Reading) {
    r.Stuck? && (r.fault.Missing? || r.fault.EndOfInput?)
  }

  /** The error a fault raises once `line` lines have been read; a missing line reads as empty text. */
  function Raise(f: Fault, line: nat): TdfError {
    match f
    case Expected(expected, actual) => ParseError(line, expected, actual)
    case Missing(expected) => ParseError(line, expected, "")
    case EndOfInput => NullReference
  }

  /** The status a method returns for the reading `r`, with `line` lines read when it stops. */
  function StatusOf(r: Reading, line: nat): Status {
    if r.Parsed? then Success else Failure(Raise(r.fault, line))
  }

  /** `evs` and `n` lines, then whatever `r` reads. */
  function Then(evs: seq<AdapterEvent>, n: nat, r: Reading): Reading {
    match r
    case Parsed(more, m) => Parsed(evs + more, n + m)
    case Stuck(f, more, m) => Stuck(f, evs + more, n + m)
  }

  /** The statements of a block body up to and including its `}` line; the events leave out the block's end. */
  function StatementsOf(header: string -> Option<string>, property: string -> PropertyParse, toks: seq<string>): (r: Reading)
    ensures r.used <= |toks| && (!Ended(r) ==> 1 <= r.used) && (Ended(r) ==> r.used == |toks|)
    decreases |toks|, 2
  {
    if toks == [] then Stuck(EndOfInput, [], 0)
    else if toks[0] == "}" then Parsed([], 1)
    else
      match StatementOf(header, property, toks)
      case Stuck(f, evs, n) => Stuck(f, evs, n)
      case Parsed(evs, n) => Then(evs, n, StatementsOf(header, property, toks[n..]))
  }

  /** One statement: a nested block for a line starting with `[`, a property otherwise. */
  function StatementOf(header: string -> Option<string>, property: string -> PropertyParse, toks: seq<string>): (r: Reading)
    requires |toks| >= 1
    ensures 1 <= r.used <= |toks| && (Ended(r) ==> r.used == |toks|)
    decreases |toks|, 1
  {
    if StartsWith(toks[0], "[") then BlockOf(header, property, toks)
    else
      match property(toks[0])
      case NotAProperty(body) => Stuck(Expected("<key>=<value>", body), [], 1)
      case Property(key, value) => Parsed([AddProperty(key, value)], 1)
  }

  /** A block whose header is the first line. */
  function BlockOf(header: string -> Option<string>, property: string -> PropertyParse, toks: seq<string>): (r: Reading)
    requires |toks| >= 1
    ensures 1 <= r.used <= |toks| && (Ended(r) ==> r.used == |toks|)
    decreases |toks|, 0
  {
    match header(toks[0])
    case None => Stuck(Expected("[<name>]", toks[0]), [], 1)
    case Some(name) =>
      match BodyOf(header, property, toks[1..])
      case Stuck(f, evs, n) => Stuck(f, [BeginBlock(name)] + evs, n + 1)
      case Parsed(evs, n) => Parsed([BeginBlock(name)] + evs + [EndBlock], n + 1)
  }

  /** A block body: the `{` line, then the statements up to the `}` line. */
  function BodyOf(header: string -> Option<string>, property: string -> PropertyParse, toks: seq<string>): (r: Reading)
    ensures r.used <= |toks| && (!Ended(r) ==> 1 <= r.used) && (Ended(r) ==> r.used == |toks|)
    decreases |toks|, 3
  {
    if toks == [] then Stuck(Missing("{"), [], 0)
    else if toks[0] != "{" then Stuck(Expected("{", toks[0]), [], 1)
    else Then([], 1, StatementsOf(header, property, toks[1..]))
  }

  /** A whole file: one block after another, each from its header line. */
  function FileOf(header: string -> Option<string>, property: string -> PropertyParse, toks: seq<string>): (r: Reading)
    ensures r.used <= |toks| && (r.Parsed? || Ended(r) ==> r.used == |toks|)
    decreases |toks|
  {
    if toks == [] then Parsed([], 0)
    else
      match BlockOf(header, property, toks)
      case Stuck(f, evs, n) => Stuck(f, evs, n)
      case Parsed(evs, n) => Then(evs, n, FileOf(header, property, toks[n..]))
  }

  /** The statements read form a balanced run, and the lines used read as it, followed by the block's end. */
  lemma {:induction false} StatementsSound(header: string -> Option<string>, property: string -> PropertyParse, toks: seq<string>)
    ensures var r := StatementsOf(header, property, toks);
      r.Parsed? ==> Balanced(r.evs) && ReadsWith(header, property, toks[..r.used], r.evs + [EndBlock])
    decreases |toks|, 2
  {
    if toks != [] && toks[0] == "}" {
      ClosingSound(header, property, toks);
    } else if toks != [] {
      var s := StatementOf(header, property, toks);
      if s.Parsed? {
        var n := s.used;
        var rest := StatementsOf(header, property, toks[n..]);
        StatementSound(header, property, toks);
        StatementsSound(header, property, toks[n..]);
        if rest.Parsed? {
          assert StatementsOf(header, property, toks) == Parsed(s.evs + rest.evs, n + rest.used);
          StatementsSoundStep(header, property, toks, n, s.evs, rest.used, rest.evs);
        }
      }
    }
  }

  /** A `}` line alone reads as the block's end. */
  lemma ClosingSound(header: string -> Option<string>, property: string -> PropertyParse, toks: seq<string>)
    requires toks != [] && toks[0] == "}"
    ensures Balanced([]) && ReadsWith(header, property, toks[..1], [] + [EndBlock])
  {
    assert toks[..1] == ["}"] && ["}"][1..] == [];
    assert ([] + [EndBlock])[1..] == [];
  }

  /** A statement's lines and events, then the rest of the statements' lines and events. */
  lemma StatementsSoundStep(header: string -> Option<string>, property: string -> PropertyParse,
                            toks: seq<string>, n: nat, stmt: seq<AdapterEvent>, m: nat, more: seq<AdapterEvent>)
    requires n + m <= |toks|
    requires Balanced(stmt) && ReadsWith(header, property, toks[..n], stmt)
    requires Balanced(more) && ReadsWith(header, property, toks[n..][..m], more + [EndBlock])
    ensures Balanced(stmt + more) && ReadsWith(header, property, toks[..n + m], stmt + more + [EndBlock])
  {
    BalancedAppend(stmt, more);
    ReadsWithAppend(header, property, toks[..n], stmt, toks[n..][..m], more + [EndBlock]);
    assert toks[..n] + toks[n..][..m] == toks[..n + m];
    assert stmt + (more + [EndBlock]) == stmt + more + [EndBlock];
  }

  /** A statement read is balanced, the lines used read as it, and a `[` line gives one block named by its header. */
  lemma {:induction false} StatementSound(header: string -> Option<string>, property: string -> PropertyParse, toks: seq<string>)
    requires |toks| >= 1
    ensures var r := StatementOf(header, property, toks);
      r.Parsed? ==> (Balanced(r.evs) && ReadsWith(header, property, toks[..r.used], r.evs)
        && (StartsWith(toks[0], "[") ==> header(toks[0]).Some? && IsBlock(r.evs, header(toks[0]).value)))
    decreases |toks|, 1
  {
    var r := StatementOf(header, property, toks);
    if StartsWith(toks[0], "[") {
      BlockSound(header, property, toks);
      if r.Parsed? {
        BlockIsBalanced(r.evs, header(toks[0]).value);
      }
    } else if r.Parsed? {
      assert toks[..1] == [toks[0]];
      PropertyIsBalanced(r.evs);
      ReadsProperty(header, property, toks[0], r.evs);
    }
  }

  /** A block read is one block named by its header, and the lines used read as it. */
  lemma {:induction false} BlockSound(header: string -> Option<string>, property: string -> PropertyParse, toks: seq<string>)
    requires |toks| >= 1
    ensures var r := BlockOf(header, property, toks);
      r.Parsed? ==> (header(toks[0]).Some? && IsBlock(r.evs, header(toks[0]).value)
        && ReadsWith(header, property, toks[..r.used], r.evs))
    decreases |toks|, 0
  {
    if header(toks[0]).Some? {
      var name := header(toks[0]).value;
      var b := BodyOf(header, property, toks[1..]);
      BodySound(header, property, toks[1..]);
      if b.Parsed? {
        BlockSoundStep(header, property, toks, name, b.used, b.evs);
      }
    }
  }

  /** A header line, then a body read from the lines after it: one block, read from the lines used. */
  lemma BlockSoundStep(header: string -> Option<string>, property: string -> PropertyParse,
                       toks: seq<string>, name: string, m: nat, body: seq<AdapterEvent>)
    requires 1 <= m < |toks| && header(toks[0]) == Some(name)
    requires toks[1] == "{" && Balanced(body) && ReadsWith(header, property, toks[1..][1..m], body + [EndBlock])
    ensures IsBlock([BeginBlock(name)] + body + [EndBlock], name)
    ensures ReadsWith(header, property, toks[..m + 1], [BeginBlock(name)] + body + [EndBlock])
  {
    WrapBlock(name, body);
    var read := toks[1..][..m];
    assert read[1..] == toks[1..][1..m];
    ReadsBlock(header, property, toks[0], name, read, body);
    assert [toks[0]] + read == toks[..m + 1];
  }

  /** A body read starts with `{`; its statements are balanced and read as its events, followed by the block's end. */
  lemma {:induction false} BodySound(header: string -> Option<string>, property: string -> PropertyParse, toks: seq<string>)
    ensures var r := BodyOf(header, property, toks);
      r.Parsed? ==> toks[0] == "{" && Balanced(r.evs) && ReadsWith(header, property, toks[1..r.used], r.evs + [EndBlock])
    decreases |toks|, 3
  {
    if toks != [] && toks[0] == "{" {
      var s := StatementsOf(header, property, toks[1..]);
      StatementsSound(header, property, toks[1..]);
      BodyOfOpen(header, property, toks);
      if s.Parsed? {
        assert toks[1..][..s.used] == toks[1..s.used + 1];
      }
    }
  }

  /** A file read uses every line, and it is loaded as one block per header line. */
  lemma {:induction false} FileSound(header: string -> Option<string>, property: string -> PropertyParse, toks: seq<string>)
    returns (headers: seq<string>, blocks: seq<seq<AdapterEvent>>)
    ensures var r := FileOf(header, property, toks);
      r.Parsed? ==> LoadedWith(header, property, toks, r.evs, headers, blocks)
    decreases |toks|
  {
    headers, blocks := [], [];
    if toks == [] {
      assert Concat([]) == [];
    } else {
      var b := BlockOf(header, property, toks);
      if b.Parsed? {
        var n := b.used;
        var rest := FileOf(header, property, toks[n..]);
        var hs, bs := FileSound(header, property, toks[n..]);
        if rest.Parsed? {
          BlockSound(header, property, toks);
          headers, blocks := LoadedStep(header, property, toks, n, b.evs, rest.evs, hs, bs);
        }
      }
    }
  }

  /** A block read from the first lines, then the blocks loaded from the rest: the whole is loaded. */
  lemma LoadedStep(header: string -> Option<string>, property: string -> PropertyParse, toks: seq<string>, n: nat,
                   block: seq<AdapterEvent>, more: seq<AdapterEvent>, hs: seq<string>, bs: seq<seq<AdapterEvent>>)
    returns (headers: seq<string>, blocks: seq<seq<AdapterEvent>>)
    requires 1 <= n <= |toks|
    requires header(toks[0]).Some? && IsBlock(block, header(toks[0]).value) && ReadsWith(header, property, toks[..n], block)
    requires LoadedWith(header, property, toks[n..], more, hs, bs)
    ensures LoadedWith(header, property, toks, block + more, headers, blocks)
  {
    BlockIsBalanced(block, header(toks[0]).value);
    BalancedAppend(block, more);
    ReadsWithAppend(header, property, toks[..n], block, toks[n..], more);
    assert toks[..n] + toks[n..] == toks;
    headers, blocks := [toks[0]] + hs, [block] + bs;
    assert blocks[0] == block && blocks[1..] == bs;
    assert Concat(blocks) == block + more;
    forall i | 0 <= i < |headers|
      ensures header(headers[i]).Some? && IsBlock(blocks[i], header(headers[i]).value)
    {
      if i > 0 {
        assert headers[i] == hs[i - 1] && blocks[i] == bs[i - 1];
      }
    }
  }

  /** Two readings one after the other. */
  lemma ThenThen(e1: seq<AdapterEvent>, n1: nat, e2: seq<AdapterEvent>, n2: nat, r: Reading)
    ensures Then(e1, n1, Then(e2, n2, r)) == Then(e1 + e2, n1 + n2, r)
  {
    assert e1 + (e2 + r.evs) == e1 + e2 + r.evs;
  }

  /** The statements ahead, when the next line is not `}`: one statement, then the rest. */
  lemma StatementsOfNext(header: string -> Option<string>, property: string -> PropertyParse, toks: seq<string>)
    requires toks != [] && toks[0] != "}"
    ensures var s := StatementOf(header, property, toks);
      && (s.Stuck? ==> StatementsOf(header, property, toks) == s)
      && (s.Parsed? ==> StatementsOf(header, property, toks) == Then(s.evs, s.used, StatementsOf(header, property, toks[s.used..])))
  {
  }

  /** One statement more of a reading in progress: `whole` still reads as what was read, then the rest. */
  lemma StatementsTurn(header: string -> Option<string>, property: string -> PropertyParse, whole: Reading,
                       acc: seq<AdapterEvent>, before: seq<string>, t: seq<string>, now: seq<string>, rest: seq<string>)
    requires whole == Then(acc, |before|, StatementsOf(header, property, t))
    requires t == now + rest && t != [] && t[0] != "}"
    requires var s := StatementOf(header, property, t); s.Parsed? && s.used == |now|
    ensures whole == Then(acc + StatementOf(header, property, t).evs, |before + now|, StatementsOf(header, property, rest))
  {
    var s := StatementOf(header, property, t);
    StatementsOfNext(header, property, t);
    assert t[s.used..] == rest;
    ThenThen(acc, |before|, s.evs, s.used, StatementsOf(header, property, rest));
  }

  /** The `}` line ends a reading in progress: `whole` is what was read and the lines used. */
  lemma StatementsEnd(header: string -> Option<string>, property: string -> PropertyParse, whole: Reading,
                      acc: seq<AdapterEvent>, before: seq<string>, t: seq<string>)
    requires whole == Then(acc, |before|, StatementsOf(header, property, t))
    requires t != [] && t[0] == "}"
    ensures whole == Parsed(acc, |before| + 1)
  {
    assert acc + [] == acc;
  }

  /**
   * The `}` line ends a reading of statements begun at `ahead`: the reading
   * is what was gathered, and it is balanced and read from the lines used.
   */
  lemma StatementsClose(header: string -> Option<string>, property: string -> PropertyParse, whole: Reading,
                        acc: seq<AdapterEvent>, before: seq<string>, t: seq<string>, ahead: seq<string>, read: seq<string>)
    requires whole == StatementsOf(header, property, ahead)
    requires whole == Then(acc, |before|, StatementsOf(header, property, t))
    requires t != [] && t[0] == "}"
    requires read == before + ["}"] && read <= ahead
    ensures whole == Parsed(acc, |read|)
    ensures Balanced(acc) && ReadsWith(header, property, read, acc + [EndBlock])
  {
    StatementsEnd(header, property, whole, acc, before, t);
    StatementsReads(header, property, ahead, read);
  }

  /** A statement that fails, or the end of input, stops a reading in progress with its fault. */
  lemma StatementsStop(header: string -> Option<string>, property: string -> PropertyParse, whole: Reading,
                       acc: seq<AdapterEvent>, n: nat, t: seq<string>)
    requires whole == Then(acc, n, StatementsOf(header, property, t))
    requires !(t != [] && t[0] == "}")
    requires (if t == [] then Stuck(EndOfInput, [], 0) else StatementOf(header, property, t)).Stuck?
    ensures whole == Then(acc, n, if t == [] then Stuck(EndOfInput, [], 0) else StatementOf(header, property, t))
  {
    if t != [] {
      StatementsOfNext(header, property, t);
    }
  }

  /** One block more of a file in progress: `whole` still reads as what was read, then the rest. */
  lemma FileTurn(header: string -> Option<string>, property: string -> PropertyParse, whole: Reading,
                 acc: seq<AdapterEvent>, before: seq<string>, t: seq<string>, now: seq<string>, rest: seq<string>)
    requires whole == Then(acc, |before|, FileOf(header, property, t))
    requires t == now + rest && t != []
    requires var b := BlockOf(header, property, t); b.Parsed? && b.used == |now|
    ensures whole == Then(acc + BlockOf(header, property, t).evs, |before + now|, FileOf(header, property, rest))
  {
    var b := BlockOf(header, property, t);
    FileOfNext(header, property, t);
    assert t[b.used..] == rest;
    ThenThen(acc, |before|, b.evs, b.used, FileOf(header, property, rest));
  }

  /** A block that fails stops a file in progress with its fault. */
  lemma FileStop(header: string -> Option<string>, property: string -> PropertyParse, whole: Reading,
                 acc: seq<AdapterEvent>, n: nat, t: seq<string>)
    requires whole == Then(acc, n, FileOf(header, property, t))
    requires t != [] && BlockOf(header, property, t).Stuck?
    ensures whole == Then(acc, n, BlockOf(header, property, t))
  {
    FileOfNext(header, property, t);
  }

  /** The end of input ends a file in progress: `whole` is what was read and the lines used. */
  lemma FileEnd(header: string -> Option<string>, property: string -> PropertyParse, whole: Reading,
                acc: seq<AdapterEvent>, n: nat)
    requires whole == Then(acc, n, FileOf(header, property, []))
    ensures whole == Parsed(acc, n)
  {
    assert acc + [] == acc;
  }

  /** The file ahead, when there is a line left: one block, then the rest. */
  lemma FileOfNext(header: string -> Option<string>, property: string -> PropertyParse, toks: seq<string>)
    requires toks != []
    ensures var b := BlockOf(header, property, toks);
      && (b.Stuck? ==> FileOf(header, property, toks) == b)
      && (b.Parsed? ==> FileOf(header, property, toks) == Then(b.evs, b.used, FileOf(header, property, toks[b.used..])))
  {
  }

  /** A body read from the `{` line on. */
  lemma BodyOfOpen(header: string -> Option<string>, property: string -> PropertyParse, toks: seq<string>)
    requires toks != [] && toks[0] == "{"
    ensures var s := StatementsOf(header, property, toks[1..]);
      BodyOf(header, property, toks) == (if s.Parsed? then Parsed(s.evs, s.used + 1) else Stuck(s.fault, s.evs, s.used + 1))
  {
    var s := StatementsOf(header, property, toks[1..]);
    assert [] + s.evs == s.evs;
  }

  /** A statement read from its first line and the lines after it. */
  lemma StatementOfLine(header: string -> Option<string>, property: string -> PropertyParse, line: string, ahead: seq<string>)
    ensures StartsWith(line, "[") ==> StatementOf(header, property, [line] + ahead) == BlockOf(header, property, [line] + ahead)
    ensures !StartsWith(line, "[") && property(line).NotAProperty? ==>
      StatementOf(header, property, [line] + ahead) == Stuck(Expected("<key>=<value>", property(line).body), [], 1)
    ensures !StartsWith(line, "[") && property(line).Property? ==>
      StatementOf(header, property, [line] + ahead) == Parsed([AddProperty(property(line).key, property(line).value)], 1)
  {
    assert ([line] + ahead)[0] == line;
  }

  /** A block read from a header line and the lines after it. */
  lemma BlockOfLine(header: string -> Option<string>, property: string -> PropertyParse, line: string, ahead: seq<string>)
    ensures var r, b := BlockOf(header, property, [line] + ahead), BodyOf(header, property, ahead);
      && (header(line).None? ==> r == Stuck(Expected("[<name>]", line), [], 1))
      && (header(line).Some? && b.Stuck? ==> r == Stuck(b.fault, [BeginBlock(header(line).value)] + b.evs, b.used + 1))
      && (header(line).Some? && b.Parsed? ==> r == Parsed([BeginBlock(header(line).value)] + b.evs + [EndBlock], b.used + 1))
  {
    assert ([line] + ahead)[0] == line && ([line] + ahead)[1..] == ahead;
  }

  /** What a block read from the lines ahead says about the lines it used. */
  lemma BlockReads(header: string -> Option<string>, property: string -> PropertyParse,
                   line: string, ahead: seq<string>, read: seq<string>)
    requires var r := BlockOf(header, property, [line] + ahead); r.Parsed? && r.used == 1 + |read|
    requires read <= ahead
    ensures var r := BlockOf(header, property, [line] + ahead);
      && header(line).Some? && IsBlock(r.evs, header(line).value)
      && ReadsWith(header, property, [line] + read, r.evs)
  {
    var toks := [line] + ahead;
    BlockSound(header, property, toks);
    assert toks[..1 + |read|] == [line] + read;
  }

  /** What a block body read from the lines ahead says about the lines it used. */
  lemma BodyReads(header: string -> Option<string>, property: string -> PropertyParse,
                  ahead: seq<string>, read: seq<string>)
    requires var r := BodyOf(header, property, ahead); r.Parsed? && r.used == |read|
    requires read <= ahead
    ensures var r := BodyOf(header, property, ahead);
      && |read| >= 1 && read[0] == "{" && Balanced(r.evs)
      && ReadsWith(header, property, read[1..], r.evs + [EndBlock])
  {
    BodySound(header, property, ahead);
    assert ahead[1..|read|] == read[1..];
  }

  /** What the statements read from the lines ahead say about the lines they used. */
  lemma StatementsReads(header: string -> Option<string>, property: string -> PropertyParse,
                        ahead: seq<string>, read: seq<string>)
    requires var r := StatementsOf(header, property, ahead); r.Parsed? && r.used == |read|
    requires read <= ahead
    ensures var r := StatementsOf(header, property, ahead);
      Balanced(r.evs) && ReadsWith(header, property, read, r.evs + [EndBlock])
  {
    StatementsSound(header, property, ahead);
    assert ahead[..|read|] == read;
  }

  /** What a statement read from the lines ahead says about the lines it used. */
  lemma StatementReads(header: string -> Option<string>, property: string -> PropertyParse,
                       line: string, ahead: seq<string>, read: seq<string>)
    requires var r := StatementOf(header, property, [line] + ahead); r.Parsed? && r.used == 1 + |read|
    requires read <= ahead
    ensures var r := StatementOf(header, property, [line] + ahead);
      && Balanced(r.evs) && ReadsWith(header, property, [line] + read, r.evs)
      && (StartsWith(line, "[") ==> header(line).Some? && IsBlock(r.evs, header(line).value))
  {
    var toks := [line] + ahead;
    StatementSound(header, property, toks);
    assert toks[..1 + |read|] == [line] + read;
  }

  /** Under sane readers, a header line is not a closing line. */
  lemma SaneHeader(header: string -> Option<string>, property: string -> PropertyParse, line: string)
    requires Sane(header, property) && header(line).Some?
    ensures StartsWith(line, "[") && line != "}"
  {
    assert StartsWith(line, "[");
    assert line[0] == '[';
  }

  /** What the parser's line readers guarantee: a header starts with `[`, and `}` is not a property. */
  ghost predicate Sane(header: string -> Option<string>, property: string -> PropertyParse) {
    && (forall t :: header(t).Some? ==> StartsWith(t, "["))
    && property("}").NotAProperty?
  }

  /** `ParseBlockName` and `ParseProperty` are sane readers. */
  lemma ReadersSane()
    ensures Sane(ParseBlockName, ParseProperty)
  {
    assert '=' !in ChompStatement("}");
  }

  /** A balanced run does not start with an end, and an enclosed one does not start with a property either. */
  lemma Leading(s: seq<AdapterEvent>)
    requires Balanced(s) && |s| >= 1
    ensures !s[0].EndBlock?
    ensures Enclosed(s) ==> s[0].BeginBlock?
  {
    BalancedPrefixes(s);
    assert s[..1] == [s[0]] && s[..0] == [];
    OneEvent(s[0], 0);
    EnclosedPrefixes(s, 0);
  }

  /** A balanced run that starts with a property stays balanced without it. */
  lemma BalancedTail(s: seq<AdapterEvent>)
    requires Balanced(s) && |s| >= 1 && s[0].AddProperty?
    ensures Balanced(s[1..])
  {
    assert s == [s[0]] + s[1..];
    OneEvent(s[0], 0);
    DepthAppend([s[0]], s[1..]);
    LowWaterAppend([s[0]], s[1..]);
  }

  /** Every prefix of the events after an opening begin is at least one below the depth it reaches inside `s`. */
  lemma AfterOpen(s: seq<AdapterEvent>, i: nat)
    requires |s| >= 1 && s[0].BeginBlock? && i <= |s| - 1
    ensures Depth(s[..i + 1]) == 1 + Depth(s[1..][..i])
  {
    assert s[..i + 1] == [s[0]] + s[1..][..i];
    OneEvent(s[0], 0);
    DepthAppend([s[0]], s[1..][..i]);
  }

  /** Events that end one below where they start, never going lower, first go below at an end whose prefix is balanced. */
  lemma FirstDip(t: seq<AdapterEvent>) returns (j: nat)
    requires Depth(t) == -1
    requires forall i :: 0 <= i <= |t| ==> Depth(t[..i]) >= -1
    ensures 1 <= j <= |t| && Depth(t[..j]) == -1 && t[j - 1] == EndBlock && Balanced(t[..j - 1])
  {
    assert t[..|t|] == t && t[..0] == [];
    j := 0;
    while Depth(t[..j]) != -1
      invariant 0 <= j <= |t|
      invariant forall i :: 0 <= i < j ==> Depth(t[..i]) >= 0
      decreases |t| - j
    {
      j := j + 1;
    }
    assert j != 0 by { assert t[..0] == []; }
    var body := t[..j - 1];
    assert Depth(t[..j]) == Depth(body) + Step(t[j - 1]) by { assert t[..j][..j - 1] == body; }
    forall i | 0 <= i <= |body| ensures Depth(body[..i]) >= 0 {
      assert body[..i] == t[..i];
    }
    BalancedPrefixes(body);
  }

  /** What follows the first dip below the start, in events that end one below it and never go lower, is balanced. */
  lemma AfterDip(t: seq<AdapterEvent>, j: nat)
    requires j <= |t| && Depth(t[..j]) == -1 && Depth(t) == -1
    requires forall i :: 0 <= i <= |t| ==> Depth(t[..i]) >= -1
    ensures Balanced(t[j..])
  {
    var after := t[j..];
    forall m | 0 <= m <= |after| ensures Depth(after[..m]) >= 0 {
      DepthAfter(t, j, m);
    }
    DepthAfter(t, j, |after|);
    assert t[..j + |after|] == t && after[..|after|] == after;
    BalancedPrefixes(after);
  }

  /** The depth after `j + m` events is the depth after `j`, then after the next `m`. */
  lemma DepthAfter(t: seq<AdapterEvent>, j: nat, m: nat)
    requires j + m <= |t|
    ensures Depth(t[..j + m]) == Depth(t[..j]) + Depth(t[j..][..m])
  {
    assert t[..j + m] == t[..j] + t[j..][..m];
    DepthAppend(t[..j], t[j..][..m]);
  }

  /**
   * A balanced run that starts with a begin splits at the end that matches
   * it: a balanced body between the two, and a balanced rest after.
   */
  lemma FirstReturn(s: seq<AdapterEvent>) returns (k: nat)
    requires Balanced(s) && |s| >= 1 && s[0].BeginBlock?
    ensures 1 <= k < |s| && s[k] == EndBlock && Balanced(s[1..k]) && Balanced(s[k + 1..])
  {
    BalancedPrefixes(s);
    var t := s[1..];
    forall i | 0 <= i <= |t| ensures Depth(t[..i]) >= -1 {
      AfterOpen(s, i);
    }
    AfterOpen(s, |t|);
    assert s[..|t| + 1] == s && t[..|t|] == t;
    var j := FirstDip(t);
    AfterDip(t, j);
    k := j;
    assert s[1..k] == t[..j - 1] && s[k + 1..] == t[j..];
  }

  /** Lines that read as two runs of events split into the lines of the first and those of the second. */
  lemma {:induction false} ReadsWithSplit(header: string -> Option<string>, property: string -> PropertyParse,
                                          toks: seq<string>, e1: seq<AdapterEvent>, e2: seq<AdapterEvent>) returns (n: nat)
    requires ReadsWith(header, property, toks, e1 + e2)
    ensures n <= |toks| && ReadsWith(header, property, toks[..n], e1) && ReadsWith(header, property, toks[n..], e2)
    decreases |e1|
  {
    if e1 == [] {
      assert e1 + e2 == e2 && toks[0..] == toks;
      n := 0;
    } else {
      var w := if e1[0].BeginBlock? then 2 else 1;
      assert (e1 + e2)[0] == e1[0] && (e1 + e2)[1..] == e1[1..] + e2;
      var m := ReadsWithSplit(header, property, toks[w..], e1[1..], e2);
      n := w + m;
      assert toks[..n][w..] == toks[w..][..m] && toks[n..] == toks[w..][m..];
      assert toks[..n][0] == toks[0] && (w == 2 ==> toks[..n][1] == toks[1]);
    }
  }

  /** A balanced run split at the end matching its first begin. */
  lemma Pieces(evs: seq<AdapterEvent>, k: nat)
    requires 1 <= k < |evs|
    ensures evs == [evs[0]] + evs[1..k] + [evs[k]] + evs[k + 1..]
    ensures evs + [EndBlock] == ([evs[0]] + evs[1..k] + [evs[k]]) + (evs[k + 1..] + [EndBlock])
  {
  }

  /** Lines split at `n`, with more after them. */
  lemma Slices(toks: seq<string>, rest: seq<string>, n: nat)
    requires 1 <= n <= |toks|
    ensures toks[..n] + (toks[n..] + rest) == toks + rest
    ensures (toks + rest)[n..] == toks[n..] + rest && (toks + rest)[0] == toks[..n][0] == toks[0]
  {
  }

  /** A statement read, then the rest of the body read: the two together. */
  lemma StatementsStep(header: string -> Option<string>, property: string -> PropertyParse,
                       all: seq<string>, e1: seq<AdapterEvent>, n: nat, e2: seq<AdapterEvent>, m: nat)
    requires |all| >= 1 && all[0] != "}"
    requires StatementOf(header, property, all) == Parsed(e1, n) && n <= |all|
    requires StatementsOf(header, property, all[n..]) == Parsed(e2, m)
    ensures StatementsOf(header, property, all) == Parsed(e1 + e2, n + m)
  {
  }

  /**
   * The statements of a body that read as a balanced run followed by the
   * block's end are read in full, whatever follows them.
   */
  lemma {:induction false} StatementsComplete(header: string -> Option<string>, property: string -> PropertyParse,
                                              toks: seq<string>, evs: seq<AdapterEvent>, rest: seq<string>)
    requires Sane(header, property)
    requires Balanced(evs) && ReadsWith(header, property, toks, evs + [EndBlock])
    ensures StatementsOf(header, property, toks + rest) == Parsed(evs, |toks|)
    decreases |evs|, 2
  {
    if evs == [] {
      assert evs + [EndBlock] == [EndBlock];
      assert toks == ["}"];
      assert (toks + rest)[0] == "}";
    } else {
      Leading(evs);
      if evs[0].AddProperty? {
        PropertyComplete(header, property, toks, evs, rest);
      } else {
        NestedComplete(header, property, toks, evs, rest);
      }
    }
  }

  /** `StatementsComplete` when the body starts with a property. */
  lemma {:induction false} PropertyComplete(header: string -> Option<string>, property: string -> PropertyParse,
                                            toks: seq<string>, evs: seq<AdapterEvent>, rest: seq<string>)
    requires Sane(header, property)
    requires Balanced(evs) && |evs| >= 1 && evs[0].AddProperty? && ReadsWith(header, property, toks, evs + [EndBlock])
    ensures StatementsOf(header, property, toks + rest) == Parsed(evs, |toks|)
    decreases |evs|, 1
  {
    PropertySplit(header, property, toks, evs);
    var all := toks + rest;
    assert all[0] == toks[0] && all[1..] == toks[1..] + rest;
    assert StatementOf(header, property, all) == Parsed([evs[0]], 1) && all[0] != "}";
    assert StatementsOf(header, property, all[1..]) == Parsed(evs[1..], |toks| - 1) by {
      StatementsComplete(header, property, toks[1..], evs[1..], rest);
    }
    StatementsStep(header, property, all, [evs[0]], 1, evs[1..], |toks| - 1);
    assert evs == [evs[0]] + evs[1..];
  }

  /** Lines that read as a balanced run starting with a property, then the block's end: its line, then the rest. */
  lemma PropertySplit(header: string -> Option<string>, property: string -> PropertyParse,
                      toks: seq<string>, evs: seq<AdapterEvent>)
    requires Balanced(evs) && |evs| >= 1 && evs[0].AddProperty? && ReadsWith(header, property, toks, evs + [EndBlock])
    ensures |toks| >= 1 && !StartsWith(toks[0], "[") && property(toks[0]) == Property(evs[0].key, evs[0].value)
    ensures Balanced(evs[1..]) && ReadsWith(header, property, toks[1..], evs[1..] + [EndBlock])
  {
    assert (evs + [EndBlock])[0] == evs[0] && (evs + [EndBlock])[1..] == evs[1..] + [EndBlock];
    BalancedTail(evs);
  }

  /** `StatementsComplete` when the body starts with a nested block. */
  lemma {:induction false} NestedComplete(header: string -> Option<string>, property: string -> PropertyParse,
                                          toks: seq<string>, evs: seq<AdapterEvent>, rest: seq<string>)
    requires Sane(header, property)
    requires Balanced(evs) && |evs| >= 1 && evs[0].BeginBlock? && ReadsWith(header, property, toks, evs + [EndBlock])
    ensures StatementsOf(header, property, toks + rest) == Parsed(evs, |toks|)
    decreases |evs|, 1
  {
    var n, body, after := NestedSplit(header, property, toks, evs);
    var block := [evs[0]] + body + [EndBlock];
    var all := toks + rest;
    Slices(toks, rest, n);
    assert StatementOf(header, property, all) == Parsed(block, n) && all[0] != "}" by {
      BlockComplete(header, property, toks[..n], evs[0].name, body, toks[n..] + rest);
      assert header(all[0]).Some? by {
        assert block[0] == evs[0] && all[0] == toks[..n][0];
      }
      SaneHeader(header, property, all[0]);
    }
    assert StatementsOf(header, property, all[n..]) == Parsed(after, |toks| - n) by {
      StatementsComplete(header, property, toks[n..], after, rest);
    }
    StatementsStep(header, property, all, block, n, after, |toks| - n);
  }

  /**
   * Lines that read as a balanced run starting with a begin, then the
   * block's end: the lines of the first nested block, and those of the
   * balanced rest.
   */
  lemma NestedSplit(header: string -> Option<string>, property: string -> PropertyParse,
                    toks: seq<string>, evs: seq<AdapterEvent>) returns (n: nat, body: seq<AdapterEvent>, after: seq<AdapterEvent>)
    requires Balanced(evs) && |evs| >= 1 && evs[0].BeginBlock? && ReadsWith(header, property, toks, evs + [EndBlock])
    ensures 2 <= n <= |toks| && |body| + 2 + |after| == |evs| && evs == [evs[0]] + body + [EndBlock] + after
    ensures Balanced(body) && ReadsWith(header, property, toks[..n], [evs[0]] + body + [EndBlock])
    ensures Balanced(after) && ReadsWith(header, property, toks[n..], after + [EndBlock])
  {
    var k := FirstReturn(evs);
    body, after := evs[1..k], evs[k + 1..];
    var block := [evs[0]] + body + [EndBlock];
    Pieces(evs, k);
    n := ReadsWithSplit(header, property, toks, block, after + [EndBlock]);
    assert block[0] == evs[0];
  }

  /** A block that reads as its begin, a balanced body and its end is read in full, whatever follows it. */
  lemma {:induction false} BlockComplete(header: string -> Option<string>, property: string -> PropertyParse,
                                         toks: seq<string>, name: string, body: seq<AdapterEvent>, rest: seq<string>)
    requires Sane(header, property)
    requires Balanced(body) && ReadsWith(header, property, toks, [BeginBlock(name)] + body + [EndBlock])
    ensures |toks| >= 1 && BlockOf(header, property, toks + rest) == Parsed([BeginBlock(name)] + body + [EndBlock], |toks|)
    decreases |body| + 2, 0
  {
    var evs := [BeginBlock(name)] + body + [EndBlock];
    assert evs[0] == BeginBlock(name) && evs[1..] == body + [EndBlock];
    StatementsComplete(header, property, toks[2..], body, rest);
    var all := toks + rest;
    assert all[0] == toks[0] && all[1] == "{" && all[2..] == toks[2..] + rest;
    BlockStep(header, property, all, name, body, |toks| - 2);
  }

  /** A header line, a `{` line and the statements read after them: the block they make. */
  lemma BlockStep(header: string -> Option<string>, property: string -> PropertyParse,
                  all: seq<string>, name: string, evs: seq<AdapterEvent>, m: nat)
    requires |all| >= 2 && header(all[0]) == Some(name) && all[1] == "{"
    requires StatementsOf(header, property, all[2..]) == Parsed(evs, m)
    ensures BlockOf(header, property, all) == Parsed([BeginBlock(name)] + evs + [EndBlock], m + 2)
  {
    var tail := all[1..];
    assert tail[0] == "{" && tail[1..] == all[2..] && all == [all[0]] + tail;
    BodyOfOpen(header, property, tail);
    BlockOfLine(header, property, all[0], tail);
  }

  /** A block read, then the rest of the file read: the two together. */
  lemma FileStep(header: string -> Option<string>, property: string -> PropertyParse,
                 all: seq<string>, e1: seq<AdapterEvent>, n: nat, e2: seq<AdapterEvent>, m: nat)
    requires |all| >= 1 && n <= |all|
    requires BlockOf(header, property, all) == Parsed(e1, n)
    requires FileOf(header, property, all[n..]) == Parsed(e2, m)
    ensures FileOf(header, property, all) == Parsed(e1 + e2, n + m)
  {
  }

  /** Balanced events with every property inside a block start with a whole block, and what follows is alike. */
  lemma FirstBlock(evs: seq<AdapterEvent>) returns (k: nat)
    requires Balanced(evs) && Enclosed(evs) && |evs| >= 1
    ensures 1 <= k < |evs| && evs[0].BeginBlock? && Balanced(evs[1..k])
    ensures evs == ([evs[0]] + evs[1..k] + [EndBlock]) + evs[k + 1..]
    ensures Balanced(evs[k + 1..]) && Enclosed(evs[k + 1..])
  {
    Leading(evs);
    k := FirstReturn(evs);
    Pieces(evs, k);
    var block := [evs[0]] + evs[1..k] + [EndBlock];
    WrapBlock(evs[0].name, evs[1..k]);
    EnclosedAppend(block, evs[k + 1..], 0);
  }

  /** A file whose lines read as balanced events with every property inside a block is read in full. */
  lemma {:induction false} FileComplete(header: string -> Option<string>, property: string -> PropertyParse,
                                        toks: seq<string>, evs: seq<AdapterEvent>)
    requires Sane(header, property)
    requires Balanced(evs) && Enclosed(evs) && ReadsWith(header, property, toks, evs)
    ensures FileOf(header, property, toks) == Parsed(evs, |toks|)
    decreases |evs|
  {
    if evs != [] {
      var n, body, after := FileSplit(header, property, toks, evs);
      var block := [evs[0]] + body + [EndBlock];
      assert BlockOf(header, property, toks) == Parsed(block, n) by {
        BlockComplete(header, property, toks[..n], evs[0].name, body, toks[n..]);
        assert toks[..n] + toks[n..] == toks;
      }
      assert FileOf(header, property, toks[n..]) == Parsed(after, |toks| - n) by {
        FileComplete(header, property, toks[n..], after);
      }
      FileStep(header, property, toks, block, n, after, |toks| - n);
    }
  }

  /** Lines that load as balanced, enclosed events: the lines of the first block, and those of the rest. */
  lemma FileSplit(header: string -> Option<string>, property: string -> PropertyParse,
                  toks: seq<string>, evs: seq<AdapterEvent>) returns (n: nat, body: seq<AdapterEvent>, after: seq<AdapterEvent>)
    requires Balanced(evs) && Enclosed(evs) && ReadsWith(header, property, toks, evs) && evs != []
    ensures 2 <= n <= |toks| && |body| + 2 + |after| == |evs| && evs[0].BeginBlock?
    ensures evs == [evs[0]] + body + [EndBlock] + after
    ensures Balanced(body) && ReadsWith(header, property, toks[..n], [BeginBlock(evs[0].name)] + body + [EndBlock])
    ensures Balanced(after) && Enclosed(after) && ReadsWith(header, property, toks[n..], after)
  {
    var k := FirstBlock(evs);
    body, after := evs[1..k], evs[k + 1..];
    var block := [evs[0]] + body + [EndBlock];
    n := ReadsWithSplit(header, property, toks, block, after);
    assert block[0] == evs[0];
  }

  /**
   * The parser accepts a file exactly when its lines can be loaded as
   * balanced blocks, one per header line; and what it reads is then that.
   */
  lemma LoadAccepts(header: string -> Option<string>, property: string -> PropertyParse, toks: seq<string>)
    returns (headers: seq<string>, blocks: seq<seq<AdapterEvent>>)
    requires Sane(header, property)
    ensures var r := FileOf(header, property, toks);
      r.Parsed? <==> exists evs, hs, bs :: LoadedWith(header, property, toks, evs, hs, bs)
    ensures var r := FileOf(header, property, toks);
      r.Parsed? ==> LoadedWith(header, property, toks, r.evs, headers, blocks)
  {
    headers, blocks := FileSound(header, property, toks);
    if exists evs, hs, bs :: LoadedWith(header, property, toks, evs, hs, bs) {
      var evs, hs, bs :| LoadedWith(header, property, toks, evs, hs, bs);
      FileComplete(header, property, toks, evs);
    }
  }

  /** The node `Load` returns. */
  datatype TdfNode = TdfNode(name: string, entries: map<string, string>)

  const EmptyNode := TdfNode("", map[])

  // ---------------------------------------------------------------------------
  // The parser

  class TdfParser {
    /** The reader: the lines of the text, in order. */
    const input: seq<string>
    /**
     * The parser's line readers: `ExtractContent`, `ParseBlockName` and the
     * parsing half of `ReadBlockLine`, fixed by the constructor.
     */
    const content: string -> string
    const blockName: string -> Option<string>
    const property: string -> PropertyParse
    /** How many lines the reader has handed out. */
    var position: nat
    /** `lineCount`: every call to the reader, including one that found the end. */
    var lineCount: nat
    /** The calls the adapter received. */
    var events: seq<AdapterEvent>

    ghost predicate Valid()
      reads this
    {
      position <= |input| && position <= lineCount && Sane(blockName, property)
    }

    constructor (lines: seq<string>)
      ensures Valid() && input == lines
      ensures content == ExtractContent && blockName == ParseBlockName && property == ParseProperty
      ensures position == 0 && lineCount == 0 && events == []
    {
      input := lines;
      content := ExtractContent;
      blockName := ParseBlockName;
      property := ParseProperty;
      ReadersSane();
      position := 0;
      lineCount := 0;
      events := [];
    }

    /** The contents of the interesting lines among `input[lo..hi]`, in the order they are read. */
    ghost function Read(lo: int, hi: int): seq<string>
      requires 0 <= lo <= hi <= |input|
    {
      Kept(content, input, lo, hi)
    }

    /** The contents of the interesting lines from `input[lo]` on: what is still to be read. */
    ghost function Ahead(lo: int): seq<string>
      requires 0 <= lo <= |input|
    {
      Read(lo, |input|)
    }

    /** The lines `toks` read as the events `evs`, by this parser's line readers. */
    ghost predicate Reads(toks: seq<string>, evs: seq<AdapterEvent>) {
      ReadsWith(blockName, property, toks, evs)
    }

    /**
     * From line `p0` at count `c0` to line `p` at count `c`, the reader
     * stopped right after an interesting line, having counted each line it
     * handed out; or, once `ended`, it ran on to the end of the input and
     * counted the call that found nothing there too.
     */
    ghost predicate Advanced(p0: nat, c0: nat, p: nat, c: nat, ended: bool)
      requires p0 <= p <= |input|
    {
      if ended then p == |input| && c == c0 + (p - p0) + 1
      else c == c0 + (p - p0) && (p == p0 || content(input[p - 1]) != "")
    }

    /** Reading on from where an earlier reading stopped short of the end. */
    lemma AdvancedThen(p0: nat, c0: nat, p1: nat, c1: nat, p: nat, c: nat, ended: bool)
      requires p0 <= p1 <= p <= |input|
      requires Advanced(p0, c0, p1, c1, false) && Advanced(p1, c1, p, c, ended)
      ensures Advanced(p0, c0, p, c, ended)
    {
    }

    /** `ReadNextLine`: one call to the reader; the count goes up whether or not a line came back. */
    method ReadNextLine() returns (line: Option<string>)
      requires Valid()
      modifies this`position, this`lineCount
      ensures Valid()
      ensures lineCount == old(lineCount) + 1
      ensures old(position) < |input| ==> line == Some(input[old(position)]) && position == old(position) + 1
      ensures old(position) == |input| ==> line == None && position == old(position)
    {
      if position < |input| {
        line := Some(input[position]);
        position := position + 1;
      } else {
        line := None;
      }
      lineCount := lineCount + 1;
    }

    /**
     * `ReadNextInterestingLine`: skips lines whose content is empty and
     * returns the content of the next one; nothing only at the end of input.
     */
    method ReadNextInterestingLine() returns (line: Option<string>)
      requires Valid()
      modifies this`position, this`lineCount
      ensures Valid() && old(position) <= position
      ensures Read(old(position), position) == (if line.Some? then [line.value] else [])
      ensures line.None? ==> position == |input| && lineCount == old(lineCount) + (position - old(position)) + 1
      ensures line.Some? ==> old(position) < position && line.value == content(input[position - 1]) && line.value != ""
      ensures line.Some? ==> lineCount == old(lineCount) + (position - old(position))
      ensures Advanced(old(position), old(lineCount), position, lineCount, line.None?)
    {
      while true
        invariant Valid() && old(position) <= position
        invariant lineCount == old(lineCount) + (position - old(position))
        invariant Read(old(position), position) == []
        decreases |input| - position
      {
        var raw := ReadNextLine();
        if raw.None? {
          return None;
        }
        var c := content(raw.value);
        if c != "" {
          assert Read(old(position), position) == Read(old(position), position - 1) + [c];
          return Some(c);
        }
      }
    }

    /** `ReadBlockLine`: one `key=value` statement, passed to the adapter. */
    method ReadBlockLine(line: string) returns (status: Status)
      modifies this`events
      ensures status.Success? <==> property(line).Property?
      ensures status.Success? ==> events == old(events) + [AddProperty(property(line).key, property(line).value)]
      ensures status.Failure? ==>
        events == old(events) && status.error == ParseError(lineCount, "<key>=<value>", property(line).body)
    {
      match property(line)
      case NotAProperty(body) =>
        status := Failure(ParseError(lineCount, "<key>=<value>", body));
      case Property(key, value) =>
        events := events + [AddProperty(key, value)];
        status := Success;
    }

    /**
     * `ReadBlock`: a header line, then the body, framed by BeginBlock and
     * EndBlock. It does exactly what `BlockOf` says of the header line and
     * the interesting lines after it: the events it reads, or the error it
     * stops with, at the reader's line count.
     */
    method ReadBlock(firstLine: string) returns (status: Status)
      requires Valid()
      modifies this`position, this`lineCount, this`events
      ensures Valid() && old(position) <= position && old(events) <= events
      ensures var r := BlockOf(blockName, property, [firstLine] + Ahead(old(position)));
        && status == StatusOf(r, lineCount) && events == old(events) + r.evs
        && |Read(old(position), position)| == r.used - 1 && Advanced(old(position), old(lineCount), position, lineCount, Ended(r))
      ensures blockName(firstLine).None? ==>
        && status == Failure(ParseError(lineCount, "[<name>]", firstLine)) && events == old(events)
        && position == old(position) && lineCount == old(lineCount)
      ensures status.Success? ==> IsBlock(events[|old(events)|..], blockName(firstLine).value)
      ensures status.Success? ==> Reads([firstLine] + Read(old(position), position), events[|old(events)|..])
      ensures status.Failure? && status.error.ParseError? ==> status.error.line == lineCount
      decreases |input| - position, 3
    {
      ghost var ahead := Ahead(old(position));
      ghost var r := BlockOf(blockName, property, [firstLine] + ahead);
      ghost var b := BodyOf(blockName, property, ahead);
      BlockOfLine(blockName, property, firstLine, ahead);
      var name := blockName(firstLine);
      if name.None? {
        assert Read(old(position), position) == [];
        return Failure(ParseError(lineCount, "[<name>]", firstLine));
      }
      ghost var e0 := events;
      events := events + [BeginBlock(name.value)];
      Appended(e0, [BeginBlock(name.value)]);
      status := ReadBlockBody();
      assert r.used - 1 == b.used && Ended(r) == Ended(b) && (r.Parsed? <==> b.Parsed?);
      PrefixTrans(e0, e0 + [BeginBlock(name.value)], events);
      if status.Success? {
        events := events + [EndBlock];
        FramedAppend(e0, name.value, b.evs);
        Appended(e0, r.evs);
        KeptSplit(content, input, old(position), position, |input|);
        BlockReads(blockName, property, firstLine, ahead, Read(old(position), position));
      } else {
        Assoc(e0, [BeginBlock(name.value)], b.evs);
      }
    }

    /**
     * `ReadBlockBody`: a `{` line, then statements and nested blocks up to
     * the `}` line; exactly what `BodyOf` says of the interesting lines ahead.
     * The events it adds are balanced.
     */
    method ReadBlockBody() returns (status: Status)
      requires Valid()
      modifies this`position, this`lineCount, this`events
      ensures Valid() && old(position) <= position && old(events) <= events
      ensures var r := BodyOf(blockName, property, Ahead(old(position)));
        && status == StatusOf(r, lineCount) && events == old(events) + r.evs
        && |Read(old(position), position)| == r.used && Advanced(old(position), old(lineCount), position, lineCount, Ended(r))
      ensures status.Success? ==> Balanced(events[|old(events)|..])
      ensures status.Success? ==>
        var read := Read(old(position), position);
        |read| >= 1 && read[0] == "{" && Reads(read[1..], events[|old(events)|..] + [EndBlock])
      ensures status.Failure? && status.error.ParseError? ==> status.error.line == lineCount
      decreases |input| - position, 2
    {
      ghost var ahead := Ahead(old(position));
      var openBracket := ReadNextInterestingLine();
      assert ahead == Read(old(position), position) + Ahead(position) by {
        KeptSplit(content, input, old(position), position, |input|);
      }
      if openBracket != Some("{") {
        return Failure(ParseError(lineCount, "{", if openBracket.Some? then openBracket.value else ""));
      }
      ghost var afterOpen := position;
      ghost var countOpen := lineCount;
      status := ReadStatements();
      BodyRead(old(position), old(lineCount), old(events), afterOpen, countOpen, status);
    }

    /** A `{` line, then the statements `ReadStatements` read: what `ReadBlockBody` then promises. */
    lemma BodyRead(p0: nat, c0: nat, e0: seq<AdapterEvent>, p1: nat, c1: nat, status: Status)
      requires p0 <= p1 <= position <= |input|
      requires Read(p0, p1) == ["{"] && Advanced(p0, c0, p1, c1, false)
      requires var s := StatementsOf(blockName, property, Ahead(p1));
        && status == StatusOf(s, lineCount) && events == e0 + s.evs
        && |Read(p1, position)| == s.used && Advanced(p1, c1, position, lineCount, Ended(s))
      ensures var r := BodyOf(blockName, property, Ahead(p0));
        && status == StatusOf(r, lineCount) && events == e0 + r.evs
        && |Read(p0, position)| == r.used && Advanced(p0, c0, position, lineCount, Ended(r))
      ensures status.Success? ==> Balanced(events[|e0|..])
      ensures status.Success? ==>
        var read := Read(p0, position);
        |read| >= 1 && read[0] == "{" && Reads(read[1..], events[|e0|..] + [EndBlock])
    {
      var ahead := Ahead(p0);
      var s := StatementsOf(blockName, property, Ahead(p1));
      KeptSplit(content, input, p0, p1, |input|);
      assert ahead == ["{"] + Ahead(p1);
      BodyOfOpen(blockName, property, ahead);
      assert ahead[1..] == Ahead(p1);
      AdvancedThen(p0, c0, p1, c1, position, lineCount, Ended(s));
      KeptSplit(content, input, p0, p1, position);
      if status.Success? {
        var read := Read(p0, position);
        assert read == ["{"] + Read(p1, position) && read <= ahead by {
          KeptSplit(content, input, p0, position, |input|);
        }
        BodyReads(blockName, property, ahead, read);
        Appended(e0, s.evs);
      }
    }

    /** The closing `}` ends the statements begun at `p0`: what `ReadStatements` then promises. */
    lemma StatementsClosed(p0: nat, c0: nat, e0: seq<AdapterEvent>, p1: nat, c1: nat, acc: seq<AdapterEvent>, status: Status)
      requires p0 <= p1 <= position <= |input|
      requires StatementsOf(blockName, property, Ahead(p0)) == Then(acc, |Read(p0, p1)|, StatementsOf(blockName, property, Ahead(p1)))
      requires Advanced(p0, c0, p1, c1, false) && events == e0 + acc
      requires Ahead(p1) != [] && Ahead(p1)[0] == "}" && status == Success
      requires p1 < position && content(input[position - 1]) == "}" && Read(p1, position) == ["}"]
      requires Advanced(p1, c1, position, lineCount, false)
      ensures p0 <= position && e0 <= events
      ensures var r := StatementsOf(blockName, property, Ahead(p0));
        && status == StatusOf(r, lineCount) && events == e0 + r.evs
        && |Read(p0, position)| == r.used && Advanced(p0, c0, position, lineCount, Ended(r))
    {
      var whole := StatementsOf(blockName, property, Ahead(p0));
      AdvancedThen(p0, c0, p1, c1, position, lineCount, false);
      KeptSplit(content, input, p0, p1, position);
      KeptSplit(content, input, p0, position, |input|);
      StatementsClose(blockName, property, whole, acc, Read(p0, p1), Ahead(p1), Ahead(p0), Read(p0, position));
      Appended(e0, acc);
    }

    /** A statement that fails, or the end of input, stops the statements begun at `p0`: what `ReadStatements` then promises. */
    lemma StatementsFailed(p0: nat, c0: nat, e0: seq<AdapterEvent>, p1: nat, c1: nat, acc: seq<AdapterEvent>, status: Status)
      requires p0 <= p1 <= position <= |input|
      requires StatementsOf(blockName, property, Ahead(p0)) == Then(acc, |Read(p0, p1)|, StatementsOf(blockName, property, Ahead(p1)))
      requires Advanced(p0, c0, p1, c1, false)
      requires !(Ahead(p1) != [] && Ahead(p1)[0] == "}") && status.Failure?
      requires var t := Ahead(p1);
        var r := if t == [] then Stuck(EndOfInput, [], 0) else StatementOf(blockName, property, t);
        && status == StatusOf(r, lineCount) && events == e0 + acc + r.evs
        && |Read(p1, position)| == r.used && Advanced(p1, c1, position, lineCount, Ended(r))
      ensures p0 <= position && e0 <= events
      ensures var r := StatementsOf(blockName, property, Ahead(p0));
        && status == StatusOf(r, lineCount) && events == e0 + r.evs
        && |Read(p0, position)| == r.used && Advanced(p0, c0, position, lineCount, Ended(r))
      ensures status.Failure? && status.error.ParseError? ==> status.error.line == lineCount
    {
      var whole := StatementsOf(blockName, property, Ahead(p0));
      var t := Ahead(p1);
      var r := if t == [] then Stuck(EndOfInput, [], 0) else StatementOf(blockName, property, t);
      StatementsStop(blockName, property, whole, acc, |Read(p0, p1)|, t);
      AdvancedThen(p0, c0, p1, c1, position, lineCount, Ended(r));
      KeptSplit(content, input, p0, p1, position);
      Assoc(e0, acc, r.evs);
      Appended(e0, acc + r.evs);
    }

    /** A statement read whole keeps the loop of `ReadStatements` on its reading. */
    lemma StatementsOn(p0: nat, c0: nat, e0: seq<AdapterEvent>, p1: nat, c1: nat, acc: seq<AdapterEvent>, status: Status)
      requires p0 <= p1 <= position <= |input|
      requires StatementsOf(blockName, property, Ahead(p0)) == Then(acc, |Read(p0, p1)|, StatementsOf(blockName, property, Ahead(p1)))
      requires Advanced(p0, c0, p1, c1, false)
      requires Ahead(p1) != [] && Ahead(p1)[0] != "}" && status.Success?
      requires var r := StatementOf(blockName, property, Ahead(p1));
        && status == StatusOf(r, lineCount)
        && |Read(p1, position)| == r.used && Advanced(p1, c1, position, lineCount, Ended(r))
      ensures var stmt := StatementOf(blockName, property, Ahead(p1)).evs;
        StatementsOf(blockName, property, Ahead(p0)) == Then(acc + stmt, |Read(p0, position)|, StatementsOf(blockName, property, Ahead(position)))
      ensures Advanced(p0, c0, position, lineCount, false)
    {
      KeptSplit(content, input, p0, p1, position);
      KeptSplit(content, input, p1, position, |input|);
      AdvancedThen(p0, c0, p1, c1, position, lineCount, false);
      StatementsTurn(blockName, property, StatementsOf(blockName, property, Ahead(p0)), acc, Read(p0, p1), Ahead(p1), Read(p1, position), Ahead(position));
    }

    /**
     * The loop of `ReadBlockBody` after its `{` line: statements and nested
     * blocks up to the `}` line; exactly what `StatementsOf` says of the
     * interesting lines ahead.
     */
    method ReadStatements() returns (status: Status)
      requires Valid()
      modifies this`position, this`lineCount, this`events
      ensures Valid() && old(position) <= position && old(events) <= events
      ensures var r := StatementsOf(blockName, property, Ahead(old(position)));
        && status == StatusOf(r, lineCount) && events == old(events) + r.evs
        && |Read(old(position), position)| == r.used && Advanced(old(position), old(lineCount), position, lineCount, Ended(r))
      ensures status.Failure? && status.error.ParseError? ==> status.error.line == lineCount
      decreases |input| - position, 1
    {
      ghost var whole := StatementsOf(blockName, property, Ahead(old(position)));
      ghost var acc: seq<AdapterEvent> := [];
      assert Read(old(position), position) == [] && events == old(events) + acc;
      while true
        invariant Valid() && old(position) <= position && events == old(events) + acc
        invariant whole == Then(acc, |Read(old(position), position)|, StatementsOf(blockName, property, Ahead(position)))
        invariant Advanced(old(position), old(lineCount), position, lineCount, false)
        decreases |input| - position
      {
        ghost var p1 := position;
        ghost var c1 := lineCount;
        var closed;
        status, closed := ReadBodyLine();
        if closed {
          StatementsClosed(old(position), old(lineCount), old(events), p1, c1, acc, status);
          return;
        }
        if status.Failure? {
          StatementsFailed(old(position), old(lineCount), old(events), p1, c1, acc, status);
          return;
        }
        ghost var stmt := StatementOf(blockName, property, Ahead(p1)).evs;
        StatementsOn(old(position), old(lineCount), old(events), p1, c1, acc, status);
        Assoc(old(events), acc, stmt);
        acc := acc + stmt;
      }
    }

    /**
     * One turn of the loop of `ReadBlockBody`: the closing `}`, or one
     * statement read as `StatementOf` says; the end of input is a null
     * reference, as the source dereferences the missing line.
     */
    method ReadBodyLine() returns (status: Status, closed: bool)
      requires Valid()
      modifies this`position, this`lineCount, this`events
      ensures Valid() && old(position) <= position && old(events) <= events
      ensures closed <==> Ahead(old(position)) != [] && Ahead(old(position))[0] == "}"
      ensures closed ==> status == Success && events == old(events)
      ensures closed ==> old(position) < position && content(input[position - 1]) == "}" && Read(old(position), position) == ["}"]
      ensures closed ==> |Read(old(position), position)| == 1 && Advanced(old(position), old(lineCount), position, lineCount, false)
      ensures !closed ==>
        var t := Ahead(old(position));
        var r := if t == [] then Stuck(EndOfInput, [], 0) else StatementOf(blockName, property, t);
        && status == StatusOf(r, lineCount) && events == old(events) + r.evs
        && |Read(old(position), position)| == r.used && Advanced(old(position), old(lineCount), position, lineCount, Ended(r))
      ensures status.Success? ==> old(position) < position
      ensures !closed && status.Success? ==>
        Balanced(events[|old(events)|..]) && Reads(Read(old(position), position), events[|old(events)|..])
      ensures status.Failure? && status.error.ParseError? ==> status.error.line == lineCount
      decreases |input| - position, 0
    {
      var line := ReadNextInterestingLine();
      KeptSplit(content, input, old(position), position, |input|);
      if line == Some("}") {
        return Success, true;
      }
      if line.None? {
        return Failure(NullReference), false;
      }
      ghost var p1 := position;
      ghost var c1 := lineCount;
      closed := false;
      status := ReadStatement(line.value);
      KeptSplit(content, input, old(position), p1, position);
      ghost var r := StatementOf(blockName, property, Ahead(old(position)));
      AdvancedThen(old(position), old(lineCount), p1, c1, position, lineCount, Ended(r));
    }

    /**
     * One line of a block body other than `}`: a nested block when it
     * starts with `[`, a property otherwise; exactly what `StatementOf`
     * says of the line and the interesting lines after it. The events it
     * adds are balanced.
     */
    method ReadStatement(line: string) returns (status: Status)
      requires Valid()
      modifies this`position, this`lineCount, this`events
      ensures Valid() && old(position) <= position && old(events) <= events
      ensures var r := StatementOf(blockName, property, [line] + Ahead(old(position)));
        && status == StatusOf(r, lineCount) && events == old(events) + r.evs
        && |Read(old(position), position)| == r.used - 1 && Advanced(old(position), old(lineCount), position, lineCount, Ended(r))
      ensures StartsWith(line, "[") && blockName(line).None? ==>
        status == Failure(ParseError(lineCount, "[<name>]", line)) && events == old(events)
      ensures StartsWith(line, "[") && status.Success? ==> IsBlock(events[|old(events)|..], blockName(line).value)
      ensures !StartsWith(line, "[") ==>
        position == old(position) && lineCount == old(lineCount) && (status.Success? <==> property(line).Property?)
      ensures !StartsWith(line, "[") && status.Success? ==>
        events == old(events) + [AddProperty(property(line).key, property(line).value)]
      ensures status.Success? ==> Balanced(events[|old(events)|..])
      ensures status.Success? ==> Reads([line] + Read(old(position), position), events[|old(events)|..])
      ensures status.Failure? && status.error.ParseError? ==> status.error.line == lineCount
      decreases |input| - position, 4
    {
      ghost var ahead := Ahead(old(position));
      ghost var r := StatementOf(blockName, property, [line] + ahead);
      StatementOfLine(blockName, property, line, ahead);
      if StartsWith(line, "[") {
        status := ReadBlock(line);
      } else {
        status := ReadBlockLine(line);
        assert Read(old(position), position) == [];
      }
      if status.Success? {
        KeptSplit(content, input, old(position), position, |input|);
        StatementReads(blockName, property, line, ahead, Read(old(position), position));
        Appended(old(events), r.evs);
      }
    }

    /** The end of input ends the file begun at `p0`: what `Load` then promises. */
    lemma FileEnded(p0: nat, c0: nat, e0: seq<AdapterEvent>, p1: nat, c1: nat, acc: seq<AdapterEvent>, status: Status)
      requires p0 <= p1 <= position <= |input|
      requires FileOf(blockName, property, Ahead(p0)) == Then(acc, |Read(p0, p1)|, FileOf(blockName, property, Ahead(p1)))
      requires Advanced(p0, c0, p1, c1, false) && events == e0 + acc
      requires Ahead(p1) == [] && status.Success?
      requires |Read(p1, position)| == 0 && Advanced(p1, c1, position, lineCount, true)
      ensures var r := FileOf(blockName, property, Ahead(p0));
        && status == StatusOf(r, lineCount) && events == e0 + r.evs
        && |Read(p0, position)| == r.used && Advanced(p0, c0, position, lineCount, r.Parsed? || Ended(r))
    {
      FileEnd(blockName, property, FileOf(blockName, property, Ahead(p0)), acc, |Read(p0, p1)|);
      AdvancedThen(p0, c0, p1, c1, position, lineCount, true);
      KeptSplit(content, input, p0, p1, position);
    }

    /** A block that fails stops the file begun at `p0`: what `Load` then promises. */
    lemma FileFailed(p0: nat, c0: nat, e0: seq<AdapterEvent>, p1: nat, c1: nat, acc: seq<AdapterEvent>, status: Status)
      requires p0 <= p1 <= position <= |input|
      requires FileOf(blockName, property, Ahead(p0)) == Then(acc, |Read(p0, p1)|, FileOf(blockName, property, Ahead(p1)))
      requires Advanced(p0, c0, p1, c1, false)
      requires Ahead(p1) != [] && status.Failure?
      requires var r := BlockOf(blockName, property, Ahead(p1));
        && status == StatusOf(r, lineCount) && events == e0 + acc + r.evs
        && |Read(p1, position)| == r.used && Advanced(p1, c1, position, lineCount, Ended(r))
      ensures e0 <= events
      ensures var r := FileOf(blockName, property, Ahead(p0));
        && status == StatusOf(r, lineCount) && events == e0 + r.evs
        && |Read(p0, position)| == r.used && Advanced(p0, c0, position, lineCount, r.Parsed? || Ended(r))
    {
      var b := BlockOf(blockName, property, Ahead(p1));
      FileStop(blockName, property, FileOf(blockName, property, Ahead(p0)), acc, |Read(p0, p1)|, Ahead(p1));
      AdvancedThen(p0, c0, p1, c1, position, lineCount, Ended(b));
      KeptSplit(content, input, p0, p1, position);
      Assoc(e0, acc, b.evs);
      Appended(e0, acc + b.evs);
    }

    /** A block read whole keeps the loop of `Load` on its reading. */
    lemma FileOn(p0: nat, c0: nat, p1: nat, c1: nat, acc: seq<AdapterEvent>, status: Status)
      requires p0 <= p1 <= position <= |input|
      requires FileOf(blockName, property, Ahead(p0)) == Then(acc, |Read(p0, p1)|, FileOf(blockName, property, Ahead(p1)))
      requires Advanced(p0, c0, p1, c1, false)
      requires Ahead(p1) != [] && status.Success?
      requires var r := BlockOf(blockName, property, Ahead(p1));
        && status == StatusOf(r, lineCount)
        && |Read(p1, position)| == r.used && Advanced(p1, c1, position, lineCount, Ended(r))
      ensures var block := BlockOf(blockName, property, Ahead(p1)).evs;
        FileOf(blockName, property, Ahead(p0)) == Then(acc + block, |Read(p0, position)|, FileOf(blockName, property, Ahead(position)))
      ensures Advanced(p0, c0, position, lineCount, false)
    {
      KeptSplit(content, input, p0, p1, position);
      KeptSplit(content, input, p1, position, |input|);
      AdvancedThen(p0, c0, p1, c1, position, lineCount, false);
      FileTurn(blockName, property, FileOf(blockName, property, Ahead(p0)), acc, Read(p0, p1), Ahead(p1), Read(p1, position), Ahead(position));
    }

    /**
     * `Load`: every interesting top-level line starts a block. The node it
     * returns is fresh and empty; everything read goes to the adapter, as
     * one block per header line, in order. It does exactly what `FileOf`
     * says of the interesting lines ahead, so it succeeds on every input
     * that can be loaded so.
     */
    method Load() returns (root: TdfNode, status: Status, ghost headers: seq<string>, ghost blocks: seq<seq<AdapterEvent>>)
      requires Valid()
      modifies this`position, this`lineCount, this`events
      ensures Valid() && old(events) <= events && root == EmptyNode
      ensures old(position) <= position
      ensures var r := FileOf(blockName, property, Ahead(old(position)));
        && status == StatusOf(r, lineCount) && events == old(events) + r.evs
        && |Read(old(position), position)| == r.used && Advanced(old(position), old(lineCount), position, lineCount, r.Parsed? || Ended(r))
      ensures status.Success? ==> position == |input|
      ensures status.Success? ==>
        LoadedWith(blockName, property, Read(old(position), |input|), events[|old(events)|..], headers, blocks)
      ensures (exists evs, hs, bs :: LoadedWith(blockName, property, Read(old(position), |input|), evs, hs, bs)) ==>
        status.Success?
      ensures status.Failure? && status.error.ParseError? ==> status.error.line == lineCount
    {
      root := EmptyNode;
      ghost var toks := Ahead(old(position));
      ghost var whole := FileOf(blockName, property, toks);
      ghost var acc: seq<AdapterEvent> := [];
      assert Read(old(position), position) == [] && events == old(events) + acc;
      Appended(old(events), acc);
      while true
        invariant Valid() && old(position) <= position && events == old(events) + acc && old(events) <= events
        invariant whole == Then(acc, |Read(old(position), position)|, FileOf(blockName, property, Ahead(position)))
        invariant Advanced(old(position), old(lineCount), position, lineCount, false)
        decreases |input| - position
      {
        ghost var p1 := position;
        ghost var c1 := lineCount;
        var done;
        status, done := ReadTopLevel();
        if done {
          FileEnded(old(position), old(lineCount), old(events), p1, c1, acc, status);
          break;
        }
        if status.Failure? {
          FileFailed(old(position), old(lineCount), old(events), p1, c1, acc, status);
          break;
        }
        ghost var block := BlockOf(blockName, property, Ahead(p1)).evs;
        FileOn(old(position), old(lineCount), p1, c1, acc, status);
        Assoc(old(events), acc, block);
        acc := acc + block;
      }
      headers, blocks := LoadAccepts(blockName, property, toks);
    }

    /**
     * One turn of `Load`'s loop: the next interesting line, if any, read as
     * a block as `BlockOf` says.
     */
    method ReadTopLevel() returns (status: Status, done: bool)
      requires Valid()
      modifies this`position, this`lineCount, this`events
      ensures Valid() && old(position) <= position && old(events) <= events
      ensures done <==> Ahead(old(position)) == []
      ensures done ==> status.Success? && position == |input| && events == old(events)
      ensures done ==> |Read(old(position), position)| == 0 && Advanced(old(position), old(lineCount), position, lineCount, true)
      ensures !done ==>
        var r := BlockOf(blockName, property, Ahead(old(position)));
        && status == StatusOf(r, lineCount) && events == old(events) + r.evs
        && |Read(old(position), position)| == r.used && Advanced(old(position), old(lineCount), position, lineCount, Ended(r))
      ensures !done && status.Success? ==>
        var read := Read(old(position), position);
        |read| >= 1 && blockName(read[0]).Some? && IsBlock(events[|old(events)|..], blockName(read[0]).value)
        && Reads(read, events[|old(events)|..])
      ensures status.Failure? && status.error.ParseError? ==> status.error.line == lineCount
    {
      var line := ReadNextInterestingLine();
      KeptSplit(content, input, old(position), position, |input|);
      if line.None? {
        return Success, true;
      }
      ghost var p1 := position;
      ghost var c1 := lineCount;
      done := false;
      status := ReadBlock(line.value);
      KeptSplit(content, input, old(position), p1, position);
      ghost var r := BlockOf(blockName, property, Ahead(old(position)));
      AdvancedThen(old(position), old(lineCount), p1, c1, position, lineCount, Ended(r));
    }
  }
}
