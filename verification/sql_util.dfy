/**
 * SQLUtil: the operator constants the facades glue conditions with, and the
 * injection scrubber `transactSQLInjection`, which is one `replaceAll` of the
 * regular expression `.*([';]+|(--)+).*` by a single space.
 *
 * Java's `.` matches anything but a line terminator, so a match never crosses
 * one: every match starts at the beginning of a line that holds a quote, a
 * semicolon or a double dash and (the trailing `.*` being greedy) runs to that
 * line's end. The model therefore works line by line.
 */
module SqlUtil {

  const EQ: string := " = "
  const AND: string := " AND "
  const WHERE: string := " WHERE "

  /** The characters java.util.regex treats as line terminators for `.`. */
  predicate IsLineTerminator(c: char) {
    c == '\n' || c == '\r' || c == '\U{85}' || c == '\U{2028}' || c == '\U{2029}'
  }

  predicate NoTerminator(s: string) {
    forall i :: 0 <= i < |s| ==> !IsLineTerminator(s[i])
  }

  /** A quote, a semicolon, or two dashes in a row somewhere in `line`. */
  predicate HasInjection(line: string) {
    exists i :: 0 <= i < |line| &&
      (line[i] == '\'' || line[i] == ';' || (line[i] == '-' && i + 1 < |line| && line[i + 1] == '-'))
  }

  /** What the regex does to one line: replace the whole of a suspicious line by a space. */
  function ScrubLine(line: string): (r: string)
    ensures HasInjection(line) ==> r == " "
    ensures !HasInjection(line) ==> r == line
    ensures NoTerminator(line) ==> NoTerminator(r)
    ensures !HasInjection(r)
  {
    if HasInjection(line) then " " else line
  }

  /** Index of the first line terminator, or |s| when there is none. */
  function LineEnd(s: string): (i: nat)
    ensures i <= |s|
    ensures NoTerminator(s[..i])
    ensures i < |s| ==> IsLineTerminator(s[i])
  {
    if |s| == 0 || IsLineTerminator(s[0]) then 0
    else
      var j := LineEnd(s[1..]);
      assert s[..j + 1] == [s[0]] + s[1..][..j];
      j + 1
  }

  lemma {:induction false} LineEndOfLine(line: string, rest: string)
    requires NoTerminator(line)
    requires |rest| > 0 ==> IsLineTerminator(rest[0])
    ensures LineEnd(line + rest) == |line|
  {
    var s := line + rest;
    if |line| > 0 {
      assert s[0] == line[0] && !IsLineTerminator(line[0]);
      assert s[1..] == line[1..] + rest;
      assert NoTerminator(line[1..]) by {
        forall i | 0 <= i < |line| - 1
          ensures !IsLineTerminator(line[1..][i])
        {
          assert line[1..][i] == line[i + 1];
        }
      }
      LineEndOfLine(line[1..], rest);
    } else {
      assert s == rest;
    }
  }

  /** The lines of `s`, split at each line terminator (terminators dropped). */
  function Lines(s: string): (ls: seq<string>)
    ensures |ls| > 0
    decreases |s|
  {
    var i := LineEnd(s);
    if i == |s| then [s] else [s[..i]] + Lines(s[i + 1..])
  }

  /** The line terminators of `s`, in order. */
  function Terminators(s: string): seq<char>
    decreases |s|
  {
    var i := LineEnd(s);
    if i == |s| then [] else [s[i]] + Terminators(s[i + 1..])
  }

  /** `sql.replaceAll(".*([';]+|(--)+).*", " ")`. */
  function TransactSqlInjection(sql: string): string
    decreases |sql|
  {
    var i := LineEnd(sql);
    if i == |sql| then ScrubLine(sql)
    else ScrubLine(sql[..i]) + [sql[i]] + TransactSqlInjection(sql[i + 1..])
  }

  /** Cutting off a first line: the lines and terminators of `line + [t] + tail`. */
  lemma FirstLine(line: string, t: char, tail: string)
    requires NoTerminator(line) && IsLineTerminator(t)
    ensures Lines(line + [t] + tail) == [line] + Lines(tail)
    ensures Terminators(line + [t] + tail) == [t] + Terminators(tail)
  {
    var s := line + [t] + tail;
    assert s == line + ([t] + tail);
    LineEndOfLine(line, [t] + tail);
    assert s[..|line|] == line;
    assert s[|line| + 1..] == tail;
  }

  /** A text without terminators is one line. */
  lemma OnlyLine(line: string)
    requires NoTerminator(line)
    ensures Lines(line) == [line]
    ensures Terminators(line) == []
  {
    LineEndOfLine(line, "");
    assert line + "" == line;
  }

  /** The output keeps the input's line terminators, in order. */
  lemma {:induction false} TransactKeepsTerminators(sql: string)
    ensures Terminators(TransactSqlInjection(sql)) == Terminators(sql)
    decreases |sql|
  {
    var i := LineEnd(sql);
    if i == |sql| {
      OnlyLine(ScrubLine(sql));
    } else {
      var line, t, rest := sql[..i], sql[i], sql[i + 1..];
      var r, out := TransactSqlInjection(sql), TransactSqlInjection(rest);
      assert Terminators(sql) == [t] + Terminators(rest) by {
        assert sql == line + [t] + rest;
        FirstLine(line, t, rest);
      }
      assert Terminators(r) == [t] + Terminators(out) by {
        assert r == ScrubLine(line) + [t] + out;
        FirstLine(ScrubLine(line), t, out);
      }
      TransactKeepsTerminators(rest);
    }
  }

  /** Scrubbing line by line commutes with putting one more line in front. */
  lemma ConsScrubbed(line: string, ls: seq<string>, out: seq<string>)
    requires |out| == |ls| && forall k :: 0 <= k < |ls| ==> out[k] == ScrubLine(ls[k])
    ensures var a, b := [line] + ls, [ScrubLine(line)] + out;
            |b| == |a| && forall k :: 0 <= k < |a| ==> b[k] == ScrubLine(a[k])
  {
    var a, b := [line] + ls, [ScrubLine(line)] + out;
    forall k | 0 <= k < |a|
      ensures b[k] == ScrubLine(a[k])
    {
      if k > 0 {
        assert a[k] == ls[k - 1] && b[k] == out[k - 1];
      }
    }
  }

  /** The k-th output line is the k-th input line, scrubbed. */
  lemma {:induction false} TransactScrubsEachLine(sql: string)
    ensures |Lines(TransactSqlInjection(sql))| == |Lines(sql)|
    ensures forall k :: 0 <= k < |Lines(sql)| ==>
              Lines(TransactSqlInjection(sql))[k] == ScrubLine(Lines(sql)[k])
    decreases |sql|
  {
    var i := LineEnd(sql);
    if i == |sql| {
      assert sql[..i] == sql;
      OnlyLine(sql);
      OnlyLine(ScrubLine(sql));
    } else {
      var line, t, rest := sql[..i], sql[i], sql[i + 1..];
      var r, out := TransactSqlInjection(sql), TransactSqlInjection(rest);
      assert Lines(sql) == [line] + Lines(rest) by {
        assert sql == line + [t] + rest;
        FirstLine(line, t, rest);
      }
      assert Lines(r) == [ScrubLine(line)] + Lines(out) by {
        assert r == ScrubLine(line) + [t] + out;
        FirstLine(ScrubLine(line), t, out);
      }
      TransactScrubsEachLine(rest);
      ConsScrubbed(line, Lines(rest), Lines(out));
    }
  }

  /**
   * Line by line: the output has the same terminators as the input, and its
   * k-th line is the k-th input line, scrubbed.
   */
  lemma TransactLineByLine(sql: string)
    ensures Terminators(TransactSqlInjection(sql)) == Terminators(sql)
    ensures |Lines(TransactSqlInjection(sql))| == |Lines(sql)|
    ensures forall k :: 0 <= k < |Lines(sql)| ==>
              Lines(TransactSqlInjection(sql))[k] == ScrubLine(Lines(sql)[k])
  {
    TransactKeepsTerminators(sql);
    TransactScrubsEachLine(sql);
  }

  /** No output line keeps a quote, a semicolon or a double dash. */
  lemma NoInjectionSurvives(sql: string)
    ensures forall k :: 0 <= k < |Lines(TransactSqlInjection(sql))| ==>
              !HasInjection(Lines(TransactSqlInjection(sql))[k])
  {
    TransactLineByLine(sql);
  }

  /** Text whose lines are all clean comes back unchanged. */
  lemma {:induction false} CleanTextUnchanged(sql: string)
    requires forall k :: 0 <= k < |Lines(sql)| ==> !HasInjection(Lines(sql)[k])
    ensures TransactSqlInjection(sql) == sql
    decreases |sql|
  {
    var i := LineEnd(sql);
    if i == |sql| {
      assert Lines(sql)[0] == sql;
    } else {
      assert Lines(sql)[0] == sql[..i];
      var rest := sql[i + 1..];
      assert forall k | 0 <= k < |Lines(rest)| :: Lines(rest)[k] == Lines(sql)[k + 1];
      CleanTextUnchanged(rest);
      assert sql == sql[..i] + [sql[i]] + sql[i + 1..];
    }
  }

  /** A line holding a quote, semicolon or double dash becomes a single space. */
  lemma SuspiciousLineBecomesSpace(sql: string, k: nat)
    requires k < |Lines(sql)| && HasInjection(Lines(sql)[k])
    ensures |Lines(TransactSqlInjection(sql))| == |Lines(sql)|
    ensures Lines(TransactSqlInjection(sql))[k] == " "
  {
    TransactLineByLine(sql);
  }

  /** Scrubbing twice is scrubbing once. */
  lemma {:induction false} TransactIdempotent(sql: string)
    ensures TransactSqlInjection(TransactSqlInjection(sql)) == TransactSqlInjection(sql)
  {
    NoInjectionSurvives(sql);
    CleanTextUnchanged(TransactSqlInjection(sql));
  }
}
