/**
 * The job-list reader `readFile`: the file text is split into lines, each
 * line into `;`-separated fields, and every line of at least two fields
 * becomes a Mail, its destination credentials defaulting to the source ones.
 */
module MailList {
  import opened Wrappers
  import opened GoStrings
  import opened Records

  /** What went wrong reading the job-list file; the model keeps the message only. */
  datatype ReadError = ReadError(message: string)

  /**
   * The job one line yields: none for fewer than two fields, fields beyond
   * the fourth ignored. A line yields a job exactly when it holds a `;`; the
   * source login and password are then the text before the first `;` and
   * between it and the next one (or the end), and no credential holds a `;`.
   */
  function LineToMail(line: string): (r: Option<Mail>)
    ensures r.Some? <==> ';' in line
    ensures r.Some? ==> r.value.login1 + [';'] + r.value.pass1 <= line
    ensures r.Some? ==> var n := |r.value.login1| + 1 + |r.value.pass1|;
              n == |line| || line[n] == ';'
    ensures r.Some? ==> ';' !in r.value.login1 && ';' !in r.value.pass1
    ensures r.Some? ==> ';' !in r.value.login2 && ';' !in r.value.pass2
  {
    var fields := Split(line, ';');
    SplitSingle(line, ';');
    SplitPiecesFree(line, ';');
    SplitJoin(line, ';');
    JoinFirstTwo(fields, ';');
    if |fields| < 2 then None
    else Some(Mail(fields[0], fields[1],
                   if |fields| > 2 then fields[2] else fields[0],
                   if |fields| > 3 then fields[3] else fields[1]))
  }

  /** The jobs of a list of lines, in line order. */
  function ParseLines(lines: seq<string>): (mm: seq<Mail>)
    ensures |mm| <= |lines|
  {
    if lines == [] then []
    else
      var init := ParseLines(lines[..|lines| - 1]);
      match LineToMail(lines[|lines| - 1])
      case Some(m) => init + [m]
      case None => init
  }

  /**
   * The jobs of the whole file text: the k-th job is the record of the k-th
   * `"\n"`-separated line holding a `;`, so there is one job per such line,
   * in line order, and never more jobs than lines.
   */
  function Parse(text: string): (mm: seq<Mail>)
    ensures |mm| <= Count(text, '\n') + 1
    ensures |mm| == |RecordLines(Split(text, '\n'))|
    ensures forall k :: 0 <= k < |mm| ==>
              LineToMail(Split(text, '\n')[RecordLines(Split(text, '\n'))[k]]) == Some(mm[k])
  {
    ParseLinesOrder(Split(text, '\n'));
    ParseLines(Split(text, '\n'))
  }

  /** The positions of the lines holding a `;`, in increasing order. */
  function RecordLines(lines: seq<string>): (idx: seq<nat>)
    ensures forall k :: 0 <= k < |idx| ==> idx[k] < |lines|
    ensures forall j, k :: 0 <= j < k < |idx| ==> idx[j] < idx[k]
    ensures forall i :: 0 <= i < |lines| ==> (i in idx <==> ';' in lines[i])
  {
    if lines == [] then []
    else
      var n := |lines| - 1;
      var init := RecordLines(lines[..n]);
      assert forall i :: 0 <= i < n ==> lines[..n][i] == lines[i];
      if ';' in lines[n] then init + [n] else init
  }

  /**
   * readFile once `os.ReadFile` has answered: a failed read is passed on
   * with no jobs, and otherwise the text is parsed, which never fails.
   */
  method ReadFile(read: Result<string, ReadError>) returns (r: Result<seq<Mail>, ReadError>)
    ensures read.Failure? ==> r == Failure(read.error)
    ensures read.Success? ==> r == Success(Parse(read.value))
  {
    if read.Failure? {
      return Failure(read.error);
    }
    var lines := Split(read.value, '\n');
    var mm: seq<Mail> := [];
    for i := 0 to |lines|
      invariant mm == ParseLines(lines[..i])
    {
      assert lines[..i + 1][..i] == lines[..i];
      var fields := Split(lines[i], ';');
      if |fields| < 2 {
        continue;
      }
      var m := Mail(fields[0], fields[1], fields[0], fields[1]);
      if |fields| > 2 {
        m := m.(login2 := fields[2]);
      }
      if |fields| > 3 {
        m := m.(pass2 := fields[3]);
      }
      mm := mm + [m];
    }
    assert lines[..|lines|] == lines;
    return Success(mm);
  }

  /** `a;b`: the destination defaults to the source pair. */
  lemma TwoFields(a: string, b: string)
    requires ';' !in a && ';' !in b
    ensures LineToMail(a + ";" + b) == Some(Mail(a, b, a, b))
  {
    SplitPrefix(a, ';', b);
    SplitFree(b, ';');
  }

  /** `a;b;c`: the third field is the destination login; the password stays the source one. */
  lemma ThreeFields(a: string, b: string, c: string)
    requires ';' !in a && ';' !in b && ';' !in c
    ensures LineToMail(a + ";" + b + ";" + c) == Some(Mail(a, b, c, b))
  {
    assert a + ";" + b + ";" + c == a + [';'] + (b + [';'] + c);
    SplitPrefix(a, ';', b + [';'] + c);
    SplitPrefix(b, ';', c);
    SplitFree(c, ';');
  }

  /**
   * `a;b;c;d` followed by nothing or by more `;`-separated fields: the third
   * and fourth fields are the destination pair, and the rest is ignored.
   */
  lemma FourOrMoreFields(a: string, b: string, c: string, d: string, tail: string)
    requires ';' !in a && ';' !in b && ';' !in c && ';' !in d
    requires tail == [] || tail[0] == ';'
    ensures LineToMail(a + ";" + b + ";" + c + ";" + d + tail) == Some(Mail(a, b, c, d))
  {
    assert a + ";" + b + ";" + c + ";" + d + tail
        == a + [';'] + (b + [';'] + (c + [';'] + (d + tail)));
    SplitPrefix(a, ';', b + [';'] + (c + [';'] + (d + tail)));
    SplitPrefix(b, ';', c + [';'] + (d + tail));
    SplitPrefix(c, ';', d + tail);
    if tail == [] {
      assert d + tail == d;
      SplitFree(d, ';');
    } else {
      assert d + tail == d + [';'] + tail[1..];
      SplitPrefix(d, ';', tail[1..]);
    }
  }

  /**
   * The jobs are the lines holding a `;`, one job per such line, in the
   * order of those lines.
   */
  lemma {:induction false} ParseLinesOrder(lines: seq<string>)
    ensures |ParseLines(lines)| == |RecordLines(lines)|
    ensures forall k :: 0 <= k < |RecordLines(lines)| ==>
              LineToMail(lines[RecordLines(lines)[k]]) == Some(ParseLines(lines)[k])
  {
    if lines != [] {
      var n := |lines| - 1;
      var init, idx := ParseLines(lines[..n]), RecordLines(lines[..n]);
      ParseLinesOrder(lines[..n]);
      forall k | 0 <= k < |idx|
        ensures LineToMail(lines[idx[k]]) == Some(init[k])
      {
        assert lines[..n][idx[k]] == lines[idx[k]];
      }
      match LineToMail(lines[n])
      case Some(m) =>
        assert ParseLines(lines) == init + [m];
        assert RecordLines(lines) == idx + [n];
      case None =>
        assert ParseLines(lines) == init;
        assert RecordLines(lines) == idx;
    }
  }
}
