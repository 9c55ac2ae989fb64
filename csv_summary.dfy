/**
 * compute_subtotal of the branch server: skip the header line of a CSV file,
 * then count every later line that has a comma and add up the amount after
 * it. The file is its contents (None when fopen fails); the lines are the
 * chunks fgets returns with a 512-byte buffer; atof is a parameter.
 */
module CsvSummary {

  import opened Libc

  /** Size of compute_subtotal's `char line[512]`. */
  const LineBufferSize: nat := 512
  /** fgets stores at most this many characters before the terminating NUL. */
  const MaxChunk: nat := LineBufferSize - 1

  /**
   * Length of what fgets(line, 512, f) reads from the front of `s`: up to and
   * including the first newline, but never more than 511 characters, and no
   * more than the file holds.
   */
  function ChunkLen(s: seq<char>): (n: nat)
    requires s != []
    ensures 0 < n <= |s| && n <= MaxChunk
    ensures '\n' !in s[..n - 1]
    ensures n < |s| && n < MaxChunk ==> s[n - 1] == '\n'
  {
    ScanChunk(s, 0)
  }

  function ScanChunk(s: seq<char>, i: nat): (n: nat)
    requires i < |s| && i < MaxChunk && '\n' !in s[..i]
    ensures i < n <= |s| && n <= MaxChunk
    ensures '\n' !in s[..n - 1]
    ensures n < |s| && n < MaxChunk ==> s[n - 1] == '\n'
    decreases |s| - i
  {
    if s[i] == '\n' || i + 1 == |s| || i + 1 == MaxChunk then i + 1
    else
      assert s[..i + 1] == s[..i] + [s[i]];
      ScanChunk(s, i + 1)
  }

  /** The successive strings fgets(line, 512, f) returns on a file holding `s`. */
  function Chunks(s: seq<char>): (cs: seq<seq<char>>)
    ensures forall i :: 0 <= i < |cs| ==> 0 < |cs[i]| <= MaxChunk
    decreases |s|
  {
    if s == [] then [] else var n := ChunkLen(s); [s[..n]] + Chunks(s[n..])
  }

  function Concat(cs: seq<seq<char>>): seq<char>
  {
    if cs == [] then [] else cs[0] + Concat(cs[1..])
  }

  /** Reading a file chunk by chunk loses and duplicates nothing. */
  lemma {:induction false} ChunksCoverFile(s: seq<char>)
    ensures Concat(Chunks(s)) == s
    decreases |s|
  {
    if s != [] {
      var n := ChunkLen(s);
      ChunksCoverFile(s[n..]);
      assert s[..n] + s[n..] == s;
    }
  }

  /**
   * A file whose first 510 characters hold no newline and that goes on past
   * 511 characters reaches the loop as several chunks: a first chunk of 511
   * characters, then the rest (a line of more than 511 characters is one
   * such case).
   */
  lemma LongLineIsSplit(s: seq<char>)
    requires |s| > MaxChunk && '\n' !in s[..MaxChunk - 1]
    ensures Chunks(s) == [s[..MaxChunk]] + Chunks(s[MaxChunk..])
    ensures |Chunks(s)| >= 2
  {
  }

  // ---------------------------------------------------------------- totals

  /** The two out-values of compute_subtotal: record count and subtotal. */
  datatype Totals = Totals(count: int, subtotal: real)

  const Zero := Totals(0, 0.0)

  function Plus(a: Totals, b: Totals): Totals
  {
    Totals(a.count + b.count, a.subtotal + b.subtotal)
  }

  /** strchr(line, ',') finds a comma before the chunk's first NUL. */
  predicate HasComma(chunk: seq<char>)
  {
    StrChr(CStr(chunk), ',').Some?
  }

  /** What one data chunk adds: one record with atof of the text after its first comma, or nothing. */
  function ChunkTotals(chunk: seq<char>, atof: seq<char> -> real): (t: Totals)
    ensures t.count == (if HasComma(chunk) then 1 else 0)
    ensures !HasComma(chunk) ==> t == Zero
  {
    var line := CStr(chunk);
    match StrChr(line, ',')
    case None => Zero
    case Some(i) => Totals(1, atof(line[i + 1..]))
  }

  /** The totals of a sequence of data chunks, summed in file order. */
  function Tally(cs: seq<seq<char>>, atof: seq<char> -> real): (r: Totals)
    ensures 0 <= r.count <= |cs|
  {
    if cs == [] then Zero else Plus(ChunkTotals(cs[0], atof), Tally(cs[1..], atof))
  }

  /**
   * The outcome compute_subtotal reports: failure (-1) when the file cannot be
   * opened or has no header line, else the totals of every chunk after the
   * header.
   */
  function Summarise(csv: Option<seq<char>>, atof: seq<char> -> real): (r: Option<Totals>)
    ensures r.Some? <==> csv.Some? && csv.value != []
  {
    match csv
    case None => None
    case Some(content) => if content == [] then None else Some(Tally(Chunks(content)[1..], atof))
  }

  /**
   * compute_subtotal(csvfile, &subtotal, &count). The two result arguments are
   * in/out parameters: when fopen fails they are returned untouched; once the
   * file is open they are reset to zero before the header is read.
   */
  method ComputeSubtotal(csv: Option<seq<char>>, atof: seq<char> -> real, subtotal0: real, count0: int)
    returns (status: int, subtotal: real, count: int)
    ensures status == 0 || status == -1
    ensures status == 0 <==> Summarise(csv, atof).Some?
    ensures status == 0 ==> count >= 0 && Summarise(csv, atof) == Some(Totals(count, subtotal))
    ensures csv.None? ==> subtotal == subtotal0 && count == count0
    ensures csv.Some? && status == -1 ==> subtotal == 0.0 && count == 0
  {
    if csv.None? {
      return -1, subtotal0, count0;
    }
    var content := csv.value;
    subtotal, count := 0.0, 0;
    if content == [] {
      return -1, subtotal, count;
    }
    SummaryOfOpenFile(content, atof);
    subtotal, count := SumRecords(content[ChunkLen(content)..], atof);
    return 0, subtotal, count;
  }

  /**
   * The record loop of compute_subtotal: starting from the zeroed out-values,
   * each chunk fgets returns from the stream `rest` that holds a comma adds one
   * to the count and the atof of the text after that comma to the subtotal.
   */
  method SumRecords(rest: seq<char>, atof: seq<char> -> real) returns (subtotal: real, count: int)
    ensures 0 <= count && Totals(count, subtotal) == TallyText(rest, atof)
  {
    subtotal, count := 0.0, 0;
    var unread := rest;
    while unread != []
      invariant 0 <= count
      invariant count + TallyText(unread, atof).count == TallyText(rest, atof).count
      invariant subtotal + TallyText(unread, atof).subtotal == TallyText(rest, atof).subtotal
      decreases |unread|
    {
      var line := unread[..ChunkLen(unread)];
      unread := unread[ChunkLen(unread)..];
      var comma := StrChr(CStr(line), ',');
      if comma.None? {
        assert ChunkTotals(line, atof) == Zero;
        continue;
      }
      var amount := atof(CStr(line)[comma.value + 1..]);
      assert ChunkTotals(line, atof) == Totals(1, amount);
      subtotal := subtotal + amount;
      count := count + 1;
    }
  }

  /** For a file that opens and is not empty, the summary is the totals of the stream after the header chunk. */
  lemma SummaryOfOpenFile(content: seq<char>, atof: seq<char> -> real)
    requires content != []
    ensures Summarise(Some(content), atof) == Some(TallyText(content[ChunkLen(content)..], atof))
  {
    assert Chunks(content)[1..] == Chunks(content[ChunkLen(content)..]);
    TallyTextIsTally(content[ChunkLen(content)..], atof);
  }

  /** The totals of the chunks fgets still returns from a file whose unread part is `s`. */
  function TallyText(s: seq<char>, atof: seq<char> -> real): (r: Totals)
    ensures 0 <= r.count <= |s|
    decreases |s|
  {
    if s == [] then Zero else var n := ChunkLen(s); Plus(ChunkTotals(s[..n], atof), TallyText(s[n..], atof))
  }

  lemma {:induction false} TallyTextIsTally(s: seq<char>, atof: seq<char> -> real)
    ensures TallyText(s, atof) == Tally(Chunks(s), atof)
    decreases |s|
  {
    if s != [] {
      var cs := Chunks(s);
      assert cs[0] == s[..ChunkLen(s)] && cs[1..] == Chunks(s[ChunkLen(s)..]);
      TallyTextIsTally(s[ChunkLen(s)..], atof);
    }
  }

  // ---------------------------------------------------------------- properties

  /**
   * A file holding only its header line, when fgets reads that line in one
   * chunk (at most 511 characters), yields success with no records and a zero
   * subtotal.
   */
  lemma HeaderOnlyFile(header: seq<char>, atof: seq<char> -> real)
    requires 0 < |header| <= MaxChunk && '\n' !in header[..|header| - 1]
    ensures Summarise(Some(header), atof) == Some(Zero)
  {
    var n := ChunkLen(header);
    assert header[..n] == header && header[n..] == [];
    assert Chunks(header) == [header] + Chunks([]);
  }

  /**
   * When fgets returns a first chunk of 511 characters (as it does for a
   * header line longer than 511 characters), only that chunk is skipped as the
   * header: everything after it is tallied as data, so a comma in the rest of
   * an over-long header line counts as a record.
   */
  lemma LongHeaderSpillsIntoRecords(header: seq<char>, rest: seq<char>, atof: seq<char> -> real)
    requires |header| == MaxChunk && '\n' !in header[..MaxChunk - 1] && rest != []
    ensures Summarise(Some(header + rest), atof) == Some(Tally(Chunks(rest), atof))
    ensures HasComma(rest[..ChunkLen(rest)]) ==> Summarise(Some(header + rest), atof).value.count >= 1
  {
    var s := header + rest;
    assert s[..MaxChunk - 1] == header[..MaxChunk - 1];
    assert ChunkLen(s) == MaxChunk;
    assert s[..MaxChunk] == header && s[MaxChunk..] == rest;
    assert Chunks(s)[1..] == Chunks(rest);
    var cs := Chunks(rest);
    assert cs[0] == rest[..ChunkLen(rest)];
    TallyCountsCommaChunks(cs[1..], atof);
  }

  /** Totals of consecutive runs of chunks add up. */
  lemma {:induction false} TallyAppend(a: seq<seq<char>>, b: seq<seq<char>>, atof: seq<char> -> real)
    ensures Tally(a + b, atof) == Plus(Tally(a, atof), Tally(b, atof))
    decreases |a|
  {
    if a == [] {
      assert a + b == b;
    } else {
      var ab := a + b;
      assert ab[0] == a[0] && ab[1..] == a[1..] + b;
      TallyAppend(a[1..], b, atof);
      assert Tally(ab, atof) == Plus(ChunkTotals(a[0], atof), Tally(a[1..] + b, atof));
    }
  }

  /** A chunk without a comma leaves both the count and the subtotal unchanged. */
  lemma CommaFreeChunkIgnored(a: seq<seq<char>>, chunk: seq<char>, b: seq<seq<char>>, atof: seq<char> -> real)
    requires !HasComma(chunk)
    ensures Tally(a + [chunk] + b, atof) == Tally(a + b, atof)
  {
    assert a + [chunk] + b == a + ([chunk] + b);
    assert Tally([chunk] + b, atof) == Tally(b, atof) by {
      assert ([chunk] + b)[1..] == b;
    }
    TallyAppend(a, [chunk] + b, atof);
    TallyAppend(a, b, atof);
  }

  /** Positions of the chunks that have a comma. */
  function CommaChunks(cs: seq<seq<char>>): set<nat>
  {
    set i: nat | i < |cs| && HasComma(cs[i])
  }

  /** Adding a chunk at the end adds its position when it has a comma. */
  lemma CommaChunksSnoc(init: seq<seq<char>>, last: seq<char>)
    ensures CommaChunks(init + [last]) == CommaChunks(init) + (if HasComma(last) then {|init|} else {})
  {
    var cs := init + [last];
    forall i: nat | i < |init| ensures cs[i] == init[i] { }
  }

  /** The record count is the number of chunks that have a comma. */
  lemma {:induction false} TallyCountsCommaChunks(cs: seq<seq<char>>, atof: seq<char> -> real)
    ensures Tally(cs, atof).count == |CommaChunks(cs)|
    decreases |cs|
  {
    if cs != [] {
      var init, last := cs[..|cs| - 1], cs[|cs| - 1];
      var k := if HasComma(last) then 1 else 0;
      assert Tally(cs, atof).count == Tally(init, atof).count + k by {
        assert cs == init + [last];
        assert Tally([last], atof) == Plus(ChunkTotals(last, atof), Zero) by {
          assert [last][1..] == [];
        }
        TallyAppend(init, [last], atof);
      }
      assert |CommaChunks(cs)| == |CommaChunks(init)| + k by {
        assert cs == init + [last];
        CommaChunksSnoc(init, last);
        assert |init| !in CommaChunks(init);
      }
      TallyCountsCommaChunks(init, atof);
    }
  }

  /**
   * On success the count is the number of chunks after the header that have
   * a comma.
   */
  lemma SummaryCountsRecords(content: seq<char>, atof: seq<char> -> real)
    requires content != []
    ensures Summarise(Some(content), atof).Some?
    ensures Summarise(Some(content), atof).value.count == |CommaChunks(Chunks(content)[1..])|
  {
    TallyCountsCommaChunks(Chunks(content)[1..], atof);
  }
}
