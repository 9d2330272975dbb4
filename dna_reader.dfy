/** The record reader (read_dnas): a sequence of text lines in which a line
    starting with '>' opens a record and the other non-empty lines are
    appended to the body of the most recent record. */
module DnaReader {

  /** A record: its identifier and its body. */
  datatype Dna = Dna(id: string, body: string)

  /** The outcome of reading: the grown record vector, or a failure when a
      body has to be stored but there is no record yet (`back()` on an empty
      vector is undefined behaviour in C++). */
  datatype Outcome = Read(dnas: seq<Dna>) | BodyBeforeHeader

  /** `std::string::npos` for a 64-bit `size_t`. */
  const NPOS: nat := 0xFFFF_FFFF_FFFF_FFFF

  /** `find`: the index of the first occurrence of `c`, or NPOS when there is
      none (no string reaches NPOS characters). */
  function Find(s: string, c: char): (r: nat)
    ensures r == NPOS || (r < |s| && s[r] == c)
    ensures forall k :: 0 <= k < |s| && k < r ==> s[k] != c
  {
    if s == [] then NPOS
    else if s[0] == c then 0
    else
      var k := Find(s[1..], c);
      if k == NPOS then NPOS else k + 1
  }

  /** `substr(pos, len)`: at most `len` characters from `pos`. */
  function Substr(s: string, pos: nat, len: nat): (r: string)
    requires pos <= |s|
    ensures |r| <= len && pos + |r| <= |s| && r == s[pos..pos + |r|]
    ensures |r| == len || pos + |r| == |s|
  {
    if len <= |s| - pos then s[pos..pos + len] else s[pos..]
  }

  /** The identifier of a header line: the text after the first '|', up to the
      next '|' or the end of the line. With no '|' at all the start index
      npos + 1 wraps to 0, so the whole line (with its '>') is the id. */
  function HeaderId(line: string): (id: string) {
    var bar := Find(line, '|');
    // the size_t sum npos + 1 wraps around to 0
    var start := if bar == NPOS then 0 else bar + 1;
    Substr(line, start, Find(Substr(line, start, NPOS), '|'))
  }

  predicate IsHeader(line: string) {
    |line| > 0 && line[0] == '>'
  }

  /** The in-order concatenation of the lines. */
  function Concat(lines: seq<string>): string {
    if lines == [] then "" else lines[0] + Concat(lines[1..])
  }

  /** The body text before the first header: every non-header line up to it,
      concatenated (an empty line contributes nothing). */
  function Lead(lines: seq<string>): string {
    if lines == [] || IsHeader(lines[0]) then "" else lines[0] + Lead(lines[1..])
  }

  /** One record per header line, with the header's id and the body text that
      follows it up to the next header. */
  function Records(lines: seq<string>): seq<Dna>
  {
    if lines == [] then []
    else if IsHeader(lines[0]) then [Dna(HeaderId(lines[0]), Lead(lines[1..]))] + Records(lines[1..])
    else Records(lines[1..])
  }

  /** The vector with the body of its last record replaced. */
  function SetLastBody(dnas: seq<Dna>, body: string): (r: seq<Dna>)
    requires dnas != []
    ensures |r| == |dnas| && r[..|r| - 1] == dnas[..|dnas| - 1]
    ensures r[|r| - 1] == Dna(dnas[|dnas| - 1].id, body)
  {
    dnas[..|dnas| - 1] + [dnas[|dnas| - 1].(body := body)]
  }

  /** The outcome of reading `rest` into the vector `dnas` with `buf` already
      collected: the pending text buf + Lead(rest), if any, becomes the body
      of the last record, and then every header of `rest` adds a record. */
  function Resume(dnas: seq<Dna>, buf: string, rest: seq<string>): (r: Outcome)
    ensures r.BodyBeforeHeader? <==> dnas == [] && buf + Lead(rest) != ""
  {
    var pending := buf + Lead(rest);
    if pending == "" then Read(dnas + Records(rest))
    else if dnas == [] then BodyBeforeHeader
    else Read(SetLastBody(dnas, pending) + Records(rest))
  }

  /** read_dnas: skip empty lines; on a header store the collected body in the
      last record and append a record with the header's id and an empty body;
      otherwise collect the line; at the end store what is still collected. */
  method ReadDnas(lines: seq<string>, dnas0: seq<Dna>) returns (r: Outcome)
    ensures r == Resume(dnas0, "", lines)
  {
    var dnas := dnas0;
    var buf := "";
    for i := 0 to |lines|
      invariant Resume(dnas, buf, lines[i..]) == Resume(dnas0, "", lines)
    {
      var line := lines[i];
      assert lines[i..] == [line] + lines[i + 1..];
      if line == "" {
        ResumeBodyLine(dnas, buf, line, lines[i + 1..]);
        assert buf + line == buf;
        continue;
      }
      if line[0] == '>' {
        if buf != "" {
          if dnas == [] {
            ResumeHeaderFails(buf, line, lines[i + 1..]);
            return BodyBeforeHeader;
          }
          ResumeHeaderLine(dnas, buf, line, lines[i + 1..]);
          dnas := SetLastBody(dnas, buf);
          buf := "";
        } else {
          ResumeHeaderLine(dnas, buf, line, lines[i + 1..]);
        }
        dnas := dnas + [Dna(HeaderId(line), "")];
      } else {
        ResumeBodyLine(dnas, buf, line, lines[i + 1..]);
        buf := buf + line;
      }
    }
    ResumeEnd(dnas, buf);
    if buf != "" {
      if dnas == [] {
        return BodyBeforeHeader;
      }
      dnas := SetLastBody(dnas, buf);
    }
    r := Read(dnas);
  }

  /** At the end of the input the collected text, if any, goes to the last
      record. */
  lemma ResumeEnd(dnas: seq<Dna>, buf: string)
    ensures Resume(dnas, buf, []) ==
            if buf == "" then Read(dnas)
            else if dnas == [] then BodyBeforeHeader
            else Read(SetLastBody(dnas, buf))
  {
    assert buf + Lead([]) == buf;
    assert dnas + Records([]) == dnas;
    if dnas != [] {
      assert SetLastBody(dnas, buf) + Records([]) == SetLastBody(dnas, buf);
    }
  }

  /** A header that finds collected text but no record fails. */
  lemma ResumeHeaderFails(buf: string, line: string, rest: seq<string>)
    requires IsHeader(line) && buf != ""
    ensures Resume([], buf, [line] + rest) == BodyBeforeHeader
  {
    assert Lead([line] + rest) == "";
    assert buf + "" == buf;
  }

  /** A line that is not a header (an empty one included) is collected. */
  lemma ResumeBodyLine(dnas: seq<Dna>, buf: string, line: string, rest: seq<string>)
    requires !IsHeader(line)
    ensures Resume(dnas, buf, [line] + rest) == Resume(dnas, buf + line, rest)
  {
    assert ([line] + rest)[1..] == rest;
    assert buf + (line + Lead(rest)) == buf + line + Lead(rest);
  }

  /** A header stores the collected text in the last record, if there is any
      text, and then appends a record with an empty body. */
  lemma ResumeHeaderLine(dnas: seq<Dna>, buf: string, line: string, rest: seq<string>)
    requires IsHeader(line)
    requires buf == "" || dnas != []
    ensures Resume(dnas, buf, [line] + rest)
            == Resume((if buf == "" then dnas else SetLastBody(dnas, buf)) + [Dna(HeaderId(line), "")], "", rest)
  {
    var tail := [line] + rest;
    assert tail[1..] == rest;
    var kept := if buf == "" then dnas else SetLastBody(dnas, buf);
    assert Lead(tail) == "";
    assert buf + Lead(tail) == buf;
    assert Records(tail) == [Dna(HeaderId(line), Lead(rest))] + Records(rest);
    assert Resume(dnas, buf, tail) == Read(kept + ([Dna(HeaderId(line), Lead(rest))] + Records(rest)));
    HeaderAppends(kept, HeaderId(line), rest);
  }

  /** Appending a record with an empty body and then reading `rest` gives
      that record the body text that opens `rest`. */
  lemma HeaderAppends(kept: seq<Dna>, id: string, rest: seq<string>)
    ensures Read(kept + ([Dna(id, Lead(rest))] + Records(rest))) == Resume(kept + [Dna(id, "")], "", rest)
  {
    assert "" + Lead(rest) == Lead(rest);
    AppendThenSet(kept, id, Lead(rest), Records(rest));
  }

  lemma AppendThenSet(kept: seq<Dna>, id: string, lead: string, records: seq<Dna>)
    ensures kept + ([Dna(id, lead)] + records)
            == if lead == "" then kept + [Dna(id, "")] + records
               else SetLastBody(kept + [Dna(id, "")], lead) + records
  {
    if lead != "" {
      assert SetLastBody(kept + [Dna(id, "")], lead) == kept + [Dna(id, lead)];
    }
  }

  /** Reading only grows the vector: the records already in it keep their
      ids, and all but the last keep their bodies too. */
  lemma ResumeKeepsEarlierRecords(dnas: seq<Dna>, buf: string, rest: seq<string>)
    ensures var r := Resume(dnas, buf, rest);
            r.Read? ==> |r.dnas| >= |dnas|
                        && (forall k :: 0 <= k < |dnas| ==> r.dnas[k].id == dnas[k].id)
                        && (forall k :: 0 <= k < |dnas| - 1 ==> r.dnas[k] == dnas[k])
  {
  }

  /** `find` returns the first occurrence. */
  lemma FindFirst(s: string, c: char, p: nat)
    requires p < |s| && p < NPOS && s[p] == c
    requires forall k :: 0 <= k < p ==> s[k] != c
    ensures Find(s, c) == p
  {
  }

  /** With no '|' the start index wraps around to 0 and the id is the whole
      header line. */
  lemma HeaderIdWithoutBar(line: string)
    requires '|' !in line && |line| <= NPOS
    ensures HeaderId(line) == line
  {
    assert Substr(line, 0, NPOS) == line;
  }

  /** An id never contains '|': it stops before the next one. */
  lemma HeaderIdHasNoBar(line: string)
    ensures '|' !in HeaderId(line)
  {
    var bar := Find(line, '|');
    var start := if bar == NPOS then 0 else bar + 1;
    var rest := Substr(line, start, NPOS);
    var id := Substr(line, start, Find(rest, '|'));
    assert id == rest[..|id|];
    forall k | 0 <= k < |id|
      ensures id[k] != '|'
    {
      assert id[k] == rest[k];
    }
  }

  /** The id is the text strictly between the first and the second '|'. */
  lemma HeaderIdBetweenBars(a: string, b: string, c: string)
    requires '|' !in a && '|' !in b && |a| + |b| + |c| + 2 < NPOS
    ensures HeaderId(a + "|" + b + "|" + c) == b
  {
    var tail := b + "|" + c;
    var line := a + "|" + tail;
    assert line == a + "|" + b + "|" + c;
    FindAfter(a, '|', tail);
    assert Substr(line, |a| + 1, NPOS) == tail;
    FindAfter(b, '|', c);
    assert Substr(line, |a| + 1, |b|) == b;
  }

  /** With a single '|' the id runs from it to the end of the line. */
  lemma HeaderIdAfterOnlyBar(a: string, b: string)
    requires '|' !in a && '|' !in b && |a| + |b| + 1 < NPOS
    ensures HeaderId(a + "|" + b) == b
  {
    var line := a + "|" + b;
    FindAfter(a, '|', b);
    assert line[|a| + 1..] == b;
  }

  /** The first `c` of a + [c] + rest is at index |a| when `a` has none. */
  lemma FindAfter(a: string, c: char, rest: string)
    requires c !in a && |a| < NPOS
    ensures Find(a + [c] + rest, c) == |a|
  {
    var s := a + [c] + rest;
    forall k | 0 <= k < |a|
      ensures s[k] != c
    {
      assert s[k] == a[k];
    }
    FindFirst(s, c, |a|);
  }

  /** The number of header lines. */
  function HeaderCount(lines: seq<string>): nat {
    if lines == [] then 0 else (if IsHeader(lines[0]) then 1 else 0) + HeaderCount(lines[1..])
  }

  /** Each header line adds exactly one record. */
  lemma {:induction false} RecordsCount(lines: seq<string>)
    ensures |Records(lines)| == HeaderCount(lines)
  {
    if lines != [] {
      RecordsCount(lines[1..]);
    }
  }

  /** A successful read appends one record per header line to the vector. */
  lemma ReadCount(lines: seq<string>, dnas0: seq<Dna>)
    requires Resume(dnas0, "", lines).Read?
    ensures |Resume(dnas0, "", lines).dnas| == |dnas0| + HeaderCount(lines)
  {
    RecordsCount(lines);
  }

  /** The record of the header at position p: it comes after the records of
      the earlier headers, carries the header's id, and its body is the text
      of the non-header lines after it, up to the next header. */
  lemma {:induction false} RecordAtHeader(lines: seq<string>, p: nat)
    requires p < |lines| && IsHeader(lines[p])
    ensures HeaderCount(lines[..p]) < |Records(lines)|
    ensures Records(lines)[HeaderCount(lines[..p])] == Dna(HeaderId(lines[p]), Lead(lines[p + 1..]))
  {
    RecordsCount(lines);
    if p == 0 {
      assert lines[..0] == [];
    } else {
      RecordAtHeader(lines[1..], p - 1);
      assert lines[..p][1..] == lines[1..][..p - 1];
      assert lines[1..][p - 1 + 1..] == lines[p + 1..];
    }
  }

  /** A header immediately followed by another header (or by the end of the
      input) gets an empty body. */
  lemma HeaderThenHeader(lines: seq<string>, p: nat)
    requires p < |lines| && IsHeader(lines[p])
    requires p + 1 == |lines| || IsHeader(lines[p + 1])
    ensures HeaderCount(lines[..p]) < |Records(lines)|
    ensures Records(lines)[HeaderCount(lines[..p])].body == ""
  {
    RecordAtHeader(lines, p);
  }

  /** The body text before a header is the concatenation of the lines before
      it, when none of them is a header. */
  lemma {:induction false} LeadStopsAtHeader(body: seq<string>, header: string, rest: seq<string>)
    requires forall k :: 0 <= k < |body| ==> !IsHeader(body[k])
    requires IsHeader(header)
    ensures Lead(body + [header] + rest) == Concat(body)
  {
    if body == [] {
      assert (body + [header] + rest)[0] == header;
    } else {
      assert (body + [header] + rest)[1..] == body[1..] + [header] + rest;
      LeadStopsAtHeader(body[1..], header, rest);
    }
  }

  /** The body text of the last record, which no header follows, is the
      concatenation of all the lines after its header. */
  lemma {:induction false} LeadToEnd(body: seq<string>)
    requires forall k :: 0 <= k < |body| ==> !IsHeader(body[k])
    ensures Lead(body) == Concat(body)
  {
    if body != [] {
      LeadToEnd(body[1..]);
    }
  }

  /** Line i is a non-empty body line and no header comes before it. */
  predicate BodyBeforeAnyHeader(lines: seq<string>, i: int) {
    0 <= i < |lines| && lines[i] != "" && !IsHeader(lines[i])
    && forall j :: 0 <= j < i ==> !IsHeader(lines[j])
  }

  /** Past a first line that is not a header, positions shift by one. */
  lemma BodyBeforeAnyHeaderShift(lines: seq<string>, i: nat)
    requires lines != [] && !IsHeader(lines[0])
    ensures BodyBeforeAnyHeader(lines, i + 1) <==> BodyBeforeAnyHeader(lines[1..], i)
  {
    if BodyBeforeAnyHeader(lines[1..], i) {
      forall j | 0 <= j < i + 1 ensures !IsHeader(lines[j]) {
        if j > 0 {
          assert lines[j] == lines[1..][j - 1];
        }
      }
    }
    if BodyBeforeAnyHeader(lines, i + 1) {
      forall j | 0 <= j < i ensures !IsHeader(lines[1..][j]) {
        assert lines[1..][j] == lines[j + 1];
      }
    }
  }

  /** There is body text before the first header exactly when some non-empty
      body line comes before every header. */
  lemma {:induction false} LeadNonEmpty(lines: seq<string>)
    ensures Lead(lines) != "" <==> exists i :: BodyBeforeAnyHeader(lines, i)
  {
    if lines == [] || IsHeader(lines[0]) {
      assert forall i :: !BodyBeforeAnyHeader(lines, i) by {
        forall i | BodyBeforeAnyHeader(lines, i) ensures false {
        }
      }
    } else if lines[0] != "" {
      assert |Lead(lines)| >= |lines[0]| > 0;
      assert BodyBeforeAnyHeader(lines, 0);
    } else {
      LeadNonEmpty(lines[1..]);
      assert Lead(lines) == Lead(lines[1..]);
      if i :| BodyBeforeAnyHeader(lines[1..], i) {
        BodyBeforeAnyHeaderShift(lines, i);
      }
      if i :| BodyBeforeAnyHeader(lines, i) {
        assert i > 0;
        BodyBeforeAnyHeaderShift(lines, i - 1);
      }
    }
  }

  /** Reading fails exactly when the vector starts empty and a non-empty body
      line comes before any header. */
  lemma ReadFails(lines: seq<string>, dnas0: seq<Dna>)
    ensures Resume(dnas0, "", lines).BodyBeforeHeader? <==>
            dnas0 == [] && exists i :: BodyBeforeAnyHeader(lines, i)
  {
    LeadNonEmpty(lines);
    assert "" + Lead(lines) == Lead(lines);
  }

  /** An empty line anywhere changes nothing: it neither opens a record nor
      adds to a body. */
  lemma {:induction false} EmptyLineSkipped(dnas: seq<Dna>, buf: string, lines: seq<string>, p: nat)
    requires p <= |lines|
    ensures Resume(dnas, buf, lines[..p] + [""] + lines[p..]) == Resume(dnas, buf, lines)
  {
    LeadSkipsEmpty(lines, p);
    RecordsSkipEmpty(lines, p);
  }

  lemma {:induction false} LeadSkipsEmpty(lines: seq<string>, p: nat)
    requires p <= |lines|
    ensures Lead(lines[..p] + [""] + lines[p..]) == Lead(lines)
  {
    var with := lines[..p] + [""] + lines[p..];
    if p == 0 {
      assert with[1..] == lines;
    } else {
      assert with[0] == lines[0];
      assert with[1..] == lines[1..][..p - 1] + [""] + lines[1..][p - 1..];
      LeadSkipsEmpty(lines[1..], p - 1);
    }
  }

  lemma {:induction false} RecordsSkipEmpty(lines: seq<string>, p: nat)
    requires p <= |lines|
    ensures Records(lines[..p] + [""] + lines[p..]) == Records(lines)
  {
    var with := lines[..p] + [""] + lines[p..];
    if p == 0 {
      assert with[1..] == lines;
    } else {
      assert with[0] == lines[0];
      assert with[1..] == lines[1..][..p - 1] + [""] + lines[1..][p - 1..];
      RecordsSkipEmpty(lines[1..], p - 1);
      LeadSkipsEmpty(lines[1..], p - 1);
    }
  }
}
