/**
 * Time and memory log loading (src/log.rs): the bracketed address parser and
 * the per-line loop that fills one address-keyed index per log.
 *
 * Reading the file and the regular-expression match of a line are not part
 * of this model: a log is a sequence of `Line`s, each with its text (which
 * the blank and header tests look at) and, when the line's pattern matched,
 * the captured address text and the already-converted numeric fields.
 */
module Log {
  import opened Wrappers
  import opened Text
  import opened Address

  // ---------------------------------------------------------------------------
  // parse_addr
  // ---------------------------------------------------------------------------

  datatype AddrError =
    | NotBracketed(text: string)   // the trimmed input is not `[...]`
    | BadElement(part: string)     // a non-empty piece is not a `u32`

  /**
   * `str::parse::<u32>`: an optional leading `+`, then one or more ASCII
   * digits whose value fits in 32 bits.
   */
  function ParseU32(p: string): (r: Option<u32>)
    ensures r.Some? ==> |p| > 0
  {
    var digits := if |p| > 0 && p[0] == '+' then p[1..] else p;
    if |digits| == 0 || !(forall i :: 0 <= i < |digits| ==> IsDigit(digits[i])) then None
    else
      var v := DigitsValue(digits);
      if v < 0x1_0000_0000 then Some(v) else None
  }

  /** `s.starts_with('[') && s.ends_with(']')`. */
  predicate IsBracketed(t: string) {
    |t| > 0 && t[0] == '[' && t[|t| - 1] == ']'
  }

  /** Prefixes already-parsed elements to the outcome of parsing the remaining pieces. */
  function Prepend(v: seq<u32>, r: Result<seq<u32>, AddrError>): Result<seq<u32>, AddrError> {
    match r
    case Ok(w) => Ok(v + w)
    case Err(e) => Err(e)
  }

  /** The comma-separated pieces: blank pieces are skipped, the first bad piece is the error. */
  function ParseParts(parts: seq<string>): Result<seq<u32>, AddrError>
    decreases |parts|
  {
    if parts == [] then Ok([])
    else
      var p := Trim(parts[0]);
      if p == [] then ParseParts(parts[1..])
      else match ParseU32(p)
        case None => Err(BadElement(p))
        case Some(x) => Prepend([x], ParseParts(parts[1..]))
  }

  /** What `parse_addr` returns for `s`. */
  function ParseAddrSpec(s: string): Result<Addr, AddrError> {
    var t := Trim(s);
    if !IsBracketed(t) then Err(NotBracketed(t))
    else
      var inner := Trim(t[1..|t| - 1]);
      if inner == [] then Ok(New([]))
      else match ParseParts(Split(inner, ','))
        case Ok(v) => Ok(New(v))
        case Err(e) => Err(e)
  }

  /** The loop of `parse_addr` over the comma-separated pieces. */
  method ParseElements(parts: seq<string>) returns (r: Result<seq<u32>, AddrError>)
    ensures r == ParseParts(parts)
  {
    var v: seq<u32> := [];
    assert parts[0..] == parts;
    match ParseParts(parts) {
      case Ok(w) => assert [] + w == w;
      case Err(_) =>
    }
    for i := 0 to |parts|
      invariant ParseParts(parts) == Prepend(v, ParseParts(parts[i..]))
    {
      assert parts[i..][1..] == parts[i + 1..];
      var p := Trim(parts[i]);
      if p == [] {
        continue;
      }
      var x := ParseU32(p);
      if x.None? {
        return Err(BadElement(p));
      }
      match ParseParts(parts[i + 1..]) {
        case Ok(w) => assert v + ([x.value] + w) == (v + [x.value]) + w;
        case Err(_) =>
      }
      v := v + [x.value];
    }
    assert parts[|parts|..] == [];
    assert v + [] == v;
    return Ok(v);
  }

  /** `parse_addr`: parses `"[0, 8, 10]"` into the address `[0, 8, 10]`. */
  method ParseAddr(s: string) returns (r: Result<Addr, AddrError>)
    ensures r == ParseAddrSpec(s)
  {
    var t := Trim(s);
    if !IsBracketed(t) {
      return Err(NotBracketed(t));
    }
    var inner := Trim(t[1..|t| - 1]);
    if inner == [] {
      return Ok(New([]));
    }
    var v := ParseElements(Split(inner, ','));
    match v {
      case Ok(path) => r := Ok(New(path));
      case Err(e) => r := Err(e);
    }
  }

  /** Input that is not bracketed is rejected; empty brackets give the root address `[]`. */
  lemma BracketsRequired(s: string)
    ensures !IsBracketed(Trim(s)) ==> ParseAddrSpec(s) == Err(NotBracketed(Trim(s)))
    ensures IsBracketed(Trim(s)) && IsBlank(Trim(s)[1..|Trim(s)| - 1]) ==> ParseAddrSpec(s) == Ok(New([]))
    ensures ParseAddrSpec(s).Ok? ==> IsBracketed(Trim(s))
  {
  }

  /** A blank piece can be dropped without changing the outcome: `"[1,,2]"` reads as `[1,2]`. */
  lemma {:induction false} BlankPartIgnored(parts: seq<string>, i: nat)
    requires i < |parts| && Trim(parts[i]) == []
    ensures ParseParts(parts) == ParseParts(parts[..i] + parts[i + 1..])
    decreases i
  {
    if i == 0 {
      assert parts[..0] + parts[1..] == parts[1..];
    } else {
      var shorter := parts[..i] + parts[i + 1..];
      assert shorter[0] == parts[0];
      assert shorter[1..] == parts[1..][..i - 1] + parts[1..][i..];
      BlankPartIgnored(parts[1..], i - 1);
    }
  }

  /** A non-blank piece that is not a `u32` (overflow included) makes the whole parse fail. */
  lemma {:induction false} BadPartRejected(parts: seq<string>, i: nat)
    requires i < |parts| && Trim(parts[i]) != [] && ParseU32(Trim(parts[i])).None?
    ensures ParseParts(parts).Err?
    decreases i
  {
    if i > 0 {
      BadPartRejected(parts[1..], i - 1);
    }
  }

  /** Ten digits above the 32-bit range are rejected rather than wrapped. */
  lemma OverflowRejected(n: nat)
    requires n >= 0x1_0000_0000
    ensures ParseU32(NatToString(n)).None?
  {
    DigitsOfNatToString(n);
  }

  // ---------------------------------------------------------------------------
  // The rendering `parse_addr` inverts: "[" + elements joined by ", " + "]"
  // ---------------------------------------------------------------------------

  function Rendered(v: seq<u32>): seq<string>
    decreases |v|
  {
    if v == [] then [] else [NatToString(v[0])] + Rendered(v[1..])
  }

  /** The `{:?}`-style text of an address path, e.g. `"[0, 8, 10]"`. */
  function Format(v: seq<u32>): string {
    "[" + Join(Rendered(v), ", ") + "]"
  }

  /** The pieces `split(',')` yields from `first + Join(Rendered(v), ", ")`. */
  function SpacedParts(v: seq<u32>, first: string): seq<string>
    decreases |v|
  {
    if v == [] then [] else [first + NatToString(v[0])] + SpacedParts(v[1..], " ")
  }

  lemma ParseU32OfNatToString(x: u32)
    ensures ParseU32(NatToString(x)) == Some(x)
  {
    DigitsOfNatToString(x);
  }

  lemma {:induction false} JoinRenderedEnds(v: seq<u32>)
    requires v != []
    ensures var j := Join(Rendered(v), ", ");
      |j| > 0 && IsDigit(j[0]) && IsDigit(j[|j| - 1]) && ',' !in NatToString(v[0])
    decreases |v|
  {
    var s0 := NatToString(v[0]);
    assert s0[0] in s0 && IsDigit(s0[0]);
    if |v| > 1 {
      JoinRenderedEnds(v[1..]);
      assert Rendered(v)[1..] == Rendered(v[1..]);
    }
  }

  lemma {:induction false} SplitOfJoin(v: seq<u32>, first: string)
    requires v != []
    requires ',' !in first
    ensures Split(first + Join(Rendered(v), ", "), ',') == SpacedParts(v, first)
    decreases |v|
  {
    var s0 := NatToString(v[0]);
    JoinRenderedEnds(v);
    if |v| == 1 {
      assert Rendered(v) == [s0];
      SplitWithoutSep(first + s0, ',');
    } else {
      var rest := Join(Rendered(v[1..]), ", ");
      assert Rendered(v)[1..] == Rendered(v[1..]);
      assert Join(Rendered(v), ", ") == s0 + ", " + rest;
      assert first + (s0 + ", " + rest) == (first + s0) + [','] + (" " + rest);
      SplitAtFirstSep(first + s0, " " + rest, ',');
      SplitOfJoin(v[1..], " ");
    }
  }

  /** A leading piece that reads as `x` contributes `x` in front of the rest. */
  lemma ParsePartsCons(p: string, rest: seq<string>, x: u32)
    requires Trim(p) != [] && ParseU32(Trim(p)) == Some(x)
    ensures ParseParts([p] + rest) == Prepend([x], ParseParts(rest))
  {
    assert ([p] + rest)[1..] == rest;
  }

  lemma {:induction false} ParseSpacedParts(v: seq<u32>, first: string)
    requires forall i :: 0 <= i < |first| ==> IsWhitespace(first[i])
    ensures ParseParts(SpacedParts(v, first)) == Ok(v)
    decreases |v|
  {
    if v != [] {
      var s0 := NatToString(v[0]);
      assert IsDigit(s0[0]) && IsDigit(s0[|s0| - 1]);
      TrimAfterSpaces(first, s0);
      ParseU32OfNatToString(v[0]);
      ParseSpacedParts(v[1..], " ");
      ParsePartsCons(first + s0, SpacedParts(v[1..], " "), v[0]);
      assert [v[0]] + v[1..] == v;
    }
  }

  /** Formatting a path as `"[" + join(", ") + "]"` and parsing it gives the path back. */
  lemma FormatThenParse(v: seq<u32>)
    ensures ParseAddrSpec(Format(v)) == Ok(New(v))
  {
    var body := Join(Rendered(v), ", ");
    var s := Format(v);
    TrimOfSolid(s);
    assert s[1..|s| - 1] == body;
    if v != [] {
      JoinRenderedEnds(v);
      TrimOfSolid(body);
      SplitOfJoin(v, "");
      assert "" + body == body;
      ParseSpacedParts(v, "");
    }
  }

  // ---------------------------------------------------------------------------
  // The line loop shared by the loaders
  // ---------------------------------------------------------------------------

  /** A log line: its text and, when the line pattern matched, what it captured. */
  datatype Line<C> = Line(text: string, capture: Option<Capture<C>>)
  datatype Capture<C> = Capture(addrText: string, fields: C)

  datatype LoadError =
    | Unparsable(lineNo: nat)                 // the line pattern did not match
    | BadNumber(lineNo: nat)                  // a captured count does not fit in a `u64`
    | BadAddr(lineNo: nat, error: AddrError)  // the captured address did not parse
    | DuplicateAddr(lineNo: nat, addr: Addr)  // an earlier row already has this address

  /**
   * What distinguishes one log from another in the shared line loop: how an
   * address is read, which lines carry no row (blank lines and the header),
   * whether the captured numbers convert, and how a row is built from an
   * address and the captured fields.
   */
  datatype LineFormat<!C, R> = LineFormat(
    parseAddr: string -> Result<Addr, AddrError>,
    skip: string -> bool,
    fieldsOk: C -> bool,
    mk: (Addr, C) -> R)

  /** Lines the format skips produce no row. */
  predicate Skipped<C, R>(line: Line<C>, f: LineFormat<C, R>) {
    f.skip(line.text)
  }

  /** A line that must produce a row does: its pattern matched, its numbers converted and its address parsed. */
  predicate Parses<C, R>(line: Line<C>, f: LineFormat<C, R>) {
    && line.capture.Some?
    && f.fieldsOk(line.capture.value.fields)
    && f.parseAddr(line.capture.value.addrText).Ok?
  }

  function AddrOf<C, R>(line: Line<C>, f: LineFormat<C, R>): Addr
    requires Parses(line, f)
  {
    f.parseAddr(line.capture.value.addrText).value
  }

  /** One iteration of the loop: line number `lno` (1-based) applied to the index built so far. */
  function LoadLine<C, R>(m: map<Addr, R>, line: Line<C>, lno: nat, f: LineFormat<C, R>)
    : Result<map<Addr, R>, LoadError>
  {
    if Skipped(line, f) then Ok(m)
    else match line.capture
      case None => Err(Unparsable(lno))
      case Some(c) =>
        if !f.fieldsOk(c.fields) then Err(BadNumber(lno))
        else match f.parseAddr(c.addrText)
        case Err(e) => Err(BadAddr(lno, e))
        case Ok(a) => if a in m then Err(DuplicateAddr(lno, a)) else Ok(m[a := f.mk(a, c.fields)])
  }

  /** The index the loop has built after the first `n` lines, or the first error. */
  function LoadUpTo<C, R>(lines: seq<Line<C>>, n: nat, f: LineFormat<C, R>)
    : Result<map<Addr, R>, LoadError>
    requires n <= |lines|
    decreases n
  {
    if n == 0 then Ok(map[])
    else match LoadUpTo(lines, n - 1, f)
      case Err(e) => Err(e)
      case Ok(m) => LoadLine(m, lines[n - 1], n, f)
  }

  /** Once a line fails, the loop stops: later lines do not change the outcome. */
  lemma {:induction false} FirstErrorStands<C, R>(lines: seq<Line<C>>, i: nat, n: nat, f: LineFormat<C, R>)
    requires i <= n <= |lines|
    requires LoadUpTo(lines, i, f).Err?
    ensures LoadUpTo(lines, n, f) == LoadUpTo(lines, i, f)
    decreases n - i
  {
    if i < n {
      FirstErrorStands(lines, i, n - 1, f);
    }
  }

  /** The outcome of loading a whole log. */
  function LoadSpec<C, R>(lines: seq<Line<C>>, f: LineFormat<C, R>)
    : Result<map<Addr, R>, LoadError>
  {
    LoadUpTo(lines, |lines|, f)
  }

  /** The loop of `parse_time_file` / `parse_memory_file` over already-split lines. */
  method LoadRows<C, R>(lines: seq<Line<C>>, f: LineFormat<C, R>)
    returns (r: Result<map<Addr, R>, LoadError>)
    ensures r == LoadSpec(lines, f)
  {
    var out: map<Addr, R> := map[];
    for i := 0 to |lines|
      invariant LoadUpTo(lines, i, f) == Ok(out)
    {
      var lno := i + 1;
      var line := lines[i];
      if f.skip(line.text) {
        continue;
      }
      if line.capture.None? {
        FirstErrorStands(lines, i + 1, |lines|, f);
        return Err(Unparsable(lno));
      }
      var c := line.capture.value;
      if !f.fieldsOk(c.fields) {
        FirstErrorStands(lines, i + 1, |lines|, f);
        return Err(BadNumber(lno));
      }
      var parsed := f.parseAddr(c.addrText);
      if parsed.Err? {
        FirstErrorStands(lines, i + 1, |lines|, f);
        return Err(BadAddr(lno, parsed.error));
      }
      var a := parsed.value;
      if a in out {
        FirstErrorStands(lines, i + 1, |lines|, f);
        return Err(DuplicateAddr(lno, a));
      }
      assert LoadUpTo(lines, i + 1, f) == LoadLine(out, line, lno, f);
      out := out[a := f.mk(a, c.fields)];
    }
    return Ok(out);
  }

  // ---------------------------------------------------------------------------
  // What the loop guarantees
  // ---------------------------------------------------------------------------

  /** Every line among the first `n` that is neither blank nor a header matched and carries a valid address. */
  ghost predicate RowsParse<C, R>(lines: seq<Line<C>>, n: nat, f: LineFormat<C, R>)
    requires n <= |lines|
  {
    forall k :: 0 <= k < n && !Skipped(lines[k], f) ==> Parses(lines[k], f)
  }

  /** No two rows among the first `n` lines carry the same address. */
  ghost predicate RowAddrsDistinct<C, R>(lines: seq<Line<C>>, n: nat, f: LineFormat<C, R>)
    requires n <= |lines| && RowsParse(lines, n, f)
  {
    forall j, k :: 0 <= j < k < n && !Skipped(lines[j], f) && !Skipped(lines[k], f)
      ==> AddrOf(lines[j], f) != AddrOf(lines[k], f)
  }

  /** The index holds exactly one entry per row among the first `n` lines, built from that row. */
  ghost predicate IndexesRows<C, R>(m: map<Addr, R>, lines: seq<Line<C>>, n: nat, f: LineFormat<C, R>)
    requires n <= |lines| && RowsParse(lines, n, f)
  {
    && (forall k :: 0 <= k < n && !Skipped(lines[k], f) ==>
          AddrOf(lines[k], f) in m && m[AddrOf(lines[k], f)] == f.mk(AddrOf(lines[k], f), lines[k].capture.value.fields))
    && (forall a :: a in m ==> exists k :: 0 <= k < n && !Skipped(lines[k], f) && AddrOf(lines[k], f) == a)
  }

  lemma RowsParseShrinks<C, R>(lines: seq<Line<C>>, n: nat, f: LineFormat<C, R>)
    requires 0 < n <= |lines| && RowsParse(lines, n, f)
    ensures RowsParse(lines, n - 1, f)
    ensures RowAddrsDistinct(lines, n, f) ==> RowAddrsDistinct(lines, n - 1, f)
  {
  }

  /** Line `n` is blank or a header: the index and the facts about it carry over unchanged. */
  lemma SkippedLineStep<C, R>(m: map<Addr, R>, lines: seq<Line<C>>, n: nat, f: LineFormat<C, R>)
    requires 0 < n <= |lines| && Skipped(lines[n - 1], f)
    requires RowsParse(lines, n - 1, f) && RowAddrsDistinct(lines, n - 1, f)
    requires IndexesRows(m, lines, n - 1, f)
    ensures RowsParse(lines, n, f) && RowAddrsDistinct(lines, n, f)
    ensures IndexesRows(m, lines, n, f)
  {
    forall b | b in m ensures exists k :: 0 <= k < n && !Skipped(lines[k], f) && AddrOf(lines[k], f) == b {
      var k :| 0 <= k < n - 1 && !Skipped(lines[k], f) && AddrOf(lines[k], f) == b;
    }
  }

  /** Line `n` is a row whose address repeats an earlier row's. */
  lemma RepeatedRowStep<C, R>(m: map<Addr, R>, lines: seq<Line<C>>, n: nat, f: LineFormat<C, R>)
    requires 0 < n <= |lines| && !Skipped(lines[n - 1], f) && Parses(lines[n - 1], f)
    requires RowsParse(lines, n - 1, f) && IndexesRows(m, lines, n - 1, f)
    requires AddrOf(lines[n - 1], f) in m
    ensures RowsParse(lines, n, f) && !RowAddrsDistinct(lines, n, f)
  {
    var j :| 0 <= j < n - 1 && !Skipped(lines[j], f) && AddrOf(lines[j], f) == AddrOf(lines[n - 1], f);
  }

  /** Line `n` is a row with a new address: it joins the index. */
  lemma NewRowStep<C, R>(m: map<Addr, R>, lines: seq<Line<C>>, n: nat, f: LineFormat<C, R>)
    requires 0 < n <= |lines| && !Skipped(lines[n - 1], f) && Parses(lines[n - 1], f)
    requires RowsParse(lines, n - 1, f) && RowAddrsDistinct(lines, n - 1, f)
    requires IndexesRows(m, lines, n - 1, f)
    requires AddrOf(lines[n - 1], f) !in m
    ensures RowsParse(lines, n, f) && RowAddrsDistinct(lines, n, f)
    ensures IndexesRows(m[AddrOf(lines[n - 1], f) := f.mk(AddrOf(lines[n - 1], f), lines[n - 1].capture.value.fields)], lines, n, f)
  {
    var a := AddrOf(lines[n - 1], f);
    var m' := m[a := f.mk(a, lines[n - 1].capture.value.fields)];
    forall b | b in m' ensures exists k :: 0 <= k < n && !Skipped(lines[k], f) && AddrOf(lines[k], f) == b {
      if b == a {
        assert !Skipped(lines[n - 1], f) && AddrOf(lines[n - 1], f) == b;
      } else {
        var k :| 0 <= k < n - 1 && !Skipped(lines[k], f) && AddrOf(lines[k], f) == b;
      }
    }
  }

  /**
   * The loop gets past line `n` exactly when every row so far parses and no
   * address repeats; the index then has one entry per row, and blank and
   * header lines add nothing.
   */
  lemma {:induction false} LoadUpToCorrect<C, R>(lines: seq<Line<C>>, n: nat, f: LineFormat<C, R>)
    requires n <= |lines|
    ensures LoadUpTo(lines, n, f).Ok? <==>
      (RowsParse(lines, n, f) && RowAddrsDistinct(lines, n, f))
    ensures LoadUpTo(lines, n, f).Ok? ==>
      IndexesRows(LoadUpTo(lines, n, f).value, lines, n, f)
    decreases n
  {
    if n > 0 {
      LoadUpToCorrect(lines, n - 1, f);
      var last := lines[n - 1];
      var prev := LoadUpTo(lines, n - 1, f);
      if prev.Err? {
        if RowsParse(lines, n, f) {
          RowsParseShrinks(lines, n, f);
        }
      } else {
        var m := prev.value;
        assert LoadUpTo(lines, n, f) == LoadLine(m, last, n, f);
        if Skipped(last, f) {
          SkippedLineStep(m, lines, n, f);
        } else if !Parses(last, f) {
          assert !RowsParse(lines, n, f);
        } else if AddrOf(last, f) in m {
          RepeatedRowStep(m, lines, n, f);
        } else {
          NewRowStep(m, lines, n, f);
        }
      }
    }
  }

  /** The whole-log form of `LoadUpToCorrect`. */
  lemma LoadSpecCorrect<C, R>(lines: seq<Line<C>>, f: LineFormat<C, R>)
    ensures LoadSpec(lines, f).Ok? <==>
      (RowsParse(lines, |lines|, f) && RowAddrsDistinct(lines, |lines|, f))
    ensures LoadSpec(lines, f).Ok? ==>
      IndexesRows(LoadSpec(lines, f).value, lines, |lines|, f)
  {
    LoadUpToCorrect(lines, |lines|, f);
  }

  // ---------------------------------------------------------------------------
  // The two loaders
  // ---------------------------------------------------------------------------

  /** A time log row. Milliseconds are kept as a whole number (see README). */
  datatype TimeRow = TimeRow(activations: nat, totalActiveMs: nat, opName: string)

  datatype MemoryRow = MemoryRow(batchedIn: nat, merges: nat, mergeIn: nat, mergeOut: nat, dropped: nat, opName: string)

  const U64_LIMIT: nat := 0x1_0000_0000_0000_0000

  /** The activation count is read as a `u64`. */
  predicate TimeFieldsFit(row: TimeRow) {
    row.activations < U64_LIMIT
  }

  /** Every memory count is read as a `u64`. */
  predicate MemoryFieldsFit(row: MemoryRow) {
    && row.batchedIn < U64_LIMIT && row.merges < U64_LIMIT && row.mergeIn < U64_LIMIT
    && row.mergeOut < U64_LIMIT && row.dropped < U64_LIMIT
  }

  /** The header of the time log mentions `addr`, `activations` and `total_active_ms`. */
  predicate IsTimeHeader(t: string) {
    Contains(t, "addr") && Contains(t, "activations") && Contains(t, "total_active_ms")
  }

  /** The header of the memory log mentions `addr` and `batched_in`. */
  predicate IsMemoryHeader(t: string) {
    Contains(t, "addr") && Contains(t, "batched_in")
  }

  function KeepTimeRow(a: Addr, row: TimeRow): TimeRow { row }

  function KeepMemoryRow(a: Addr, row: MemoryRow): MemoryRow { row }

  /** Each loader trims the end of a line, then skips it when it is blank or is the header. */
  predicate BlankOrHeader(text: string, isHeader: string -> bool) {
    var t := TrimEnd(text);
    IsBlank(t) || isHeader(t)
  }

  predicate TimeLineSkipped(text: string) {
    BlankOrHeader(text, IsTimeHeader)
  }

  predicate MemoryLineSkipped(text: string) {
    BlankOrHeader(text, IsMemoryHeader)
  }

  /** Time log lines: addresses read by `parse_addr`, blank and header lines skipped, rows kept as captured. */
  function TimeFormat(): LineFormat<TimeRow, TimeRow> {
    LineFormat(ParseAddrSpec, TimeLineSkipped, TimeFieldsFit, KeepTimeRow)
  }

  /** Memory log lines: addresses read by `parse_addr`, blank and header lines skipped, rows kept as captured. */
  function MemoryFormat(): LineFormat<MemoryRow, MemoryRow> {
    LineFormat(ParseAddrSpec, MemoryLineSkipped, MemoryFieldsFit, KeepMemoryRow)
  }

  /**
   * A blank or whitespace-only line is skipped by both loaders, whatever
   * follows; so is a header line.
   */
  lemma BlankLinesSkipped(text: string)
    ensures IsBlank(text) ==> TimeLineSkipped(text) && MemoryLineSkipped(text)
    ensures IsTimeHeader(TrimEnd(text)) ==> TimeLineSkipped(text)
    ensures IsMemoryHeader(TrimEnd(text)) ==> MemoryLineSkipped(text)
  {
    var t := TrimEnd(text);
    TrimEndRemovesWhitespace(text);
    BlankIffAllWhitespace(text);
    BlankIffAllWhitespace(t);
  }

  /** `parse_time_file`, past reading the file and matching each line. */
  method LoadTimeLog(lines: seq<Line<TimeRow>>) returns (r: Result<map<Addr, TimeRow>, LoadError>)
    ensures r == LoadSpec(lines, TimeFormat())
    ensures r.Ok? <==> RowsParse(lines, |lines|, TimeFormat()) && RowAddrsDistinct(lines, |lines|, TimeFormat())
    ensures r.Ok? ==> IndexesRows(r.value, lines, |lines|, TimeFormat())
  {
    r := LoadRows(lines, TimeFormat());
    LoadSpecCorrect(lines, TimeFormat());
  }

  /** `parse_memory_file`, past reading the file and matching each line. */
  method LoadMemoryLog(lines: seq<Line<MemoryRow>>) returns (r: Result<map<Addr, MemoryRow>, LoadError>)
    ensures r == LoadSpec(lines, MemoryFormat())
    ensures r.Ok? <==> RowsParse(lines, |lines|, MemoryFormat()) && RowAddrsDistinct(lines, |lines|, MemoryFormat())
    ensures r.Ok? ==> IndexesRows(r.value, lines, |lines|, MemoryFormat())
  {
    r := LoadRows(lines, MemoryFormat());
    LoadSpecCorrect(lines, MemoryFormat());
  }
}
