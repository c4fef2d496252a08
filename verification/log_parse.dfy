/**
 * The profile-table loader of the second generation (src/log/parse.rs): the
 * time-log loop again, except that each row also records its own address.
 * Its `parse_addr` is the same function as the one in src/log.rs, so the
 * model reads addresses with `Log.ParseAddrSpec`.
 */
module LogParse {
  import opened Wrappers
  import opened Text
  import opened Address
  import opened Log

  /** `LogRow`: one operator row, keyed by and carrying its address. */
  datatype LogRow = LogRow(addr: Addr, activations: nat, totalActiveMs: nat, opName: string)

  /** What the line pattern captures besides the address. */
  datatype LogFields = LogFields(activations: nat, totalActiveMs: nat, opName: string)

  predicate LogFieldsFit(c: LogFields) {
    c.activations < U64_LIMIT
  }

  function MakeLogRow(a: Addr, c: LogFields): LogRow {
    LogRow(a, c.activations, c.totalActiveMs, c.opName)
  }

  /** The profile table has the time log's layout and header. */
  function LogFormat(): LineFormat<LogFields, LogRow> {
    LineFormat(ParseAddrSpec, TimeLineSkipped, LogFieldsFit, MakeLogRow)
  }

  /**
   * `parse_log_file`, past reading the file and matching each line: one row
   * per address, or the first error; every row sits under its own address.
   */
  method ParseLogFile(lines: seq<Line<LogFields>>) returns (r: Result<map<Addr, LogRow>, LoadError>)
    ensures r == LoadSpec(lines, LogFormat())
    ensures r.Ok? <==> RowsParse(lines, |lines|, LogFormat()) && RowAddrsDistinct(lines, |lines|, LogFormat())
    ensures r.Ok? ==> IndexesRows(r.value, lines, |lines|, LogFormat())
    ensures r.Ok? ==> forall a :: a in r.value ==> r.value[a].addr == a
  {
    r := LoadRows(lines, LogFormat());
    LoadSpecCorrect(lines, LogFormat());
    if r.Ok? {
      forall a | a in r.value ensures r.value[a].addr == a {
        var k :| 0 <= k < |lines| && !Skipped(lines[k], LogFormat()) && AddrOf(lines[k], LogFormat()) == a;
      }
    }
  }
}
