/**
 * DbUrlUtils: JDBC URL, driver class and script file name per database type.
 * A URL is a pattern with `${ip}`, `${port}`, `${charSet}`, `${path}` (and for
 * RAC `${ip_rac}`, `${port_rac}`) placeholders, each filled by one Java
 * `replaceFirst`, whose replacement text is itself interpreted: `\x` stands
 * for x, `$0` for the matched text, and any other `$` is an error.
 */
module DbUrlUtils {
  import opened Common
  import DbOpOracle

  /** The database types the switches name; any other member of the enum is Unlisted. */
  datatype DbType =
    | OracleServiceName | Oracle | OracleRac | Db2 | Sybase | Gbase | Mssql | MySql
    | Firebird | Kingbase | Dm | Sqlite | Unlisted(name: string)

  /** The connection settings genUrl reads. Null references are None. */
  datatype DbCfg = DbCfg(
    dbType: Option<DbType>,
    ip: Option<string>,
    port: int,
    namePath: Option<string>,
    charSet: Option<string>,
    extParam: Option<map<string, string>>)

  // ===========================================================================
  // Java's replaceFirst with a literal pattern

  /** The number of '0' characters that open `s`. */
  function LeadingZeros(s: string): (n: nat)
    ensures n <= |s|
    ensures forall i :: 0 <= i < n ==> s[i] == '0'
    ensures n < |s| ==> s[n] != '0'
  {
    if |s| == 0 || s[0] != '0' then 0 else 1 + LeadingZeros(s[1..])
  }

  /**
   * The replacement text as Matcher.appendReplacement reads it, for a pattern
   * without groups: `\x` is x; `$0` is the matched text, and since the group
   * number keeps growing digit by digit while it stays a legal group, the 0s
   * right after it belong to the reference; other `$` uses and a trailing `\`
   * are errors.
   */
  function ExpandReplacement(rep: string, matched: string): (r: Result<string>)
    ensures r.Err? ==> r.error == IllegalReplacement
    ensures r.Ok? && '$' !in rep ==> |r.value| <= |rep|
    decreases |rep|
  {
    if |rep| == 0 then Ok("")
    else if rep[0] == '\\' then
      if |rep| == 1 then Err(IllegalReplacement)
      else
        var rest :- ExpandReplacement(rep[2..], matched);
        Ok([rep[1]] + rest)
    else if rep[0] == '$' then
      if |rep| >= 2 && rep[1] == '0' then
        var rest :- ExpandReplacement(rep[2 + LeadingZeros(rep[2..])..], matched);
        Ok(matched + rest)
      else Err(IllegalReplacement)
    else
      var rest :- ExpandReplacement(rep[1..], matched);
      Ok([rep[0]] + rest)
  }

  /** k copies of '0'. */
  function Zeros(k: nat): (z: string)
    ensures |z| == k && forall i :: 0 <= i < k ==> z[i] == '0'
  {
    if k == 0 then "" else "0" + Zeros(k - 1)
  }

  /** `$0` followed by any run of 0s stands for the matched text once. */
  lemma GroupZeroSwallowsZeros(pre: string, k: nat, post: string, matched: string)
    requires '$' !in pre && '\\' !in pre && '$' !in post && '\\' !in post
    requires |post| == 0 || post[0] != '0'
    ensures ExpandReplacement(pre + "$0" + Zeros(k) + post, matched) == Ok(pre + matched + post)
  {
    var rest := "$0" + Zeros(k) + post;
    GroupZeroHead(k, post, matched);
    PlainPrefix(pre, rest, matched, matched + post);
    assert pre + "$0" + Zeros(k) + post == pre + rest;
    assert pre + (matched + post) == pre + matched + post;
  }

  /** Text with neither `$` nor `\` is copied ahead of whatever follows it. */
  lemma {:induction false} PlainPrefix(pre: string, rest: string, matched: string, x: string)
    requires '$' !in pre && '\\' !in pre
    requires ExpandReplacement(rest, matched) == Ok(x)
    ensures ExpandReplacement(pre + rest, matched) == Ok(pre + x)
    decreases |pre|
  {
    if |pre| > 0 {
      PlainPrefix(pre[1..], rest, matched, x);
      assert pre + rest == [pre[0]] + (pre[1..] + rest);
      PlainHead(pre[0], pre[1..] + rest, matched, pre[1..] + x);
      assert [pre[0]] + (pre[1..] + x) == pre + x;
    } else {
      assert pre + rest == rest && pre + x == x;
    }
  }

  /** A character other than `$` and `\` is copied ahead of the rest's expansion. */
  lemma PlainHead(c: char, rest: string, matched: string, x: string)
    requires c != '$' && c != '\\'
    requires ExpandReplacement(rest, matched) == Ok(x)
    ensures ExpandReplacement([c] + rest, matched) == Ok([c] + x)
  {
    assert ([c] + rest)[1..] == rest;
  }

  lemma GroupZeroHead(k: nat, post: string, matched: string)
    requires '$' !in post && '\\' !in post
    requires |post| == 0 || post[0] != '0'
    ensures ExpandReplacement("$0" + Zeros(k) + post, matched) == Ok(matched + post)
  {
    var rep := "$0" + Zeros(k) + post;
    var tail := rep[2..];
    assert tail == Zeros(k) + post;
    LeadingZerosOfRun(k, post);
    assert tail[k..] == post;
    PlainReplacementIsLiteral(post, matched);
  }

  lemma {:induction false} LeadingZerosOfRun(k: nat, post: string)
    requires |post| == 0 || post[0] != '0'
    ensures LeadingZeros(Zeros(k) + post) == k
    decreases k
  {
    if k > 0 {
      assert (Zeros(k) + post)[1..] == Zeros(k - 1) + post;
      LeadingZerosOfRun(k - 1, post);
    } else {
      assert Zeros(k) + post == post;
    }
  }

  /** Text with neither `$` nor `\` is taken literally. */
  lemma {:induction false} PlainReplacementIsLiteral(rep: string, matched: string)
    requires '$' !in rep && '\\' !in rep
    ensures ExpandReplacement(rep, matched) == Ok(rep)
    decreases |rep|
  {
    if |rep| > 0 {
      PlainReplacementIsLiteral(rep[1..], matched);
      assert [rep[0]] + rep[1..] == rep;
    }
  }

  /** A `$` not followed by 0 makes the replacement fail. */
  lemma DollarWithoutZeroFails(pre: string, post: string, matched: string)
    requires '$' !in pre && '\\' !in pre
    requires |post| == 0 || post[0] != '0'
    ensures ExpandReplacement(pre + "$" + post, matched) == Err(IllegalReplacement)
    decreases |pre|
  {
    if |pre| > 0 {
      assert (pre + "$" + post)[1..] == pre[1..] + "$" + post;
      DollarWithoutZeroFails(pre[1..], post, matched);
    } else {
      assert pre + "$" + post == "$" + post;
    }
  }

  /** `s.replaceAll("\\\\", "\\\\\\\\")`: every backslash doubled. */
  function DoubleBackslashes(s: string): (r: string)
    ensures '$' !in s ==> '$' !in r
  {
    if |s| == 0 then ""
    else (if s[0] == '\\' then "\\\\" else [s[0]]) + DoubleBackslashes(s[1..])
  }

  /** Doubling the backslashes is undone by the replacement reading: a `$`-free path arrives intact. */
  lemma {:induction false} DoubledPathArrivesIntact(path: string, matched: string)
    requires '$' !in path
    ensures ExpandReplacement(DoubleBackslashes(path), matched) == Ok(path)
    decreases |path|
  {
    if |path| > 0 {
      DoubledPathArrivesIntact(path[1..], matched);
      var d := DoubleBackslashes(path);
      if path[0] == '\\' {
        assert d[2..] == DoubleBackslashes(path[1..]);
      } else {
        assert d[1..] == DoubleBackslashes(path[1..]);
      }
      assert [path[0]] + path[1..] == path;
    }
  }

  /** `Matcher.quoteReplacement`: every backslash and every `$` escaped with a backslash. */
  function QuoteReplacement(s: string): string {
    if |s| == 0 then ""
    else (if s[0] == '\\' || s[0] == '$' then ['\\', s[0]] else [s[0]]) + QuoteReplacement(s[1..])
  }

  /** A quoted text arrives verbatim, whatever characters it holds. */
  lemma {:induction false} QuotedTextArrivesIntact(s: string, matched: string)
    ensures ExpandReplacement(QuoteReplacement(s), matched) == Ok(s)
    decreases |s|
  {
    if |s| > 0 {
      QuotedTextArrivesIntact(s[1..], matched);
      var q := QuoteReplacement(s);
      if s[0] == '\\' || s[0] == '$' {
        assert q[2..] == QuoteReplacement(s[1..]);
      } else {
        assert q[1..] == QuoteReplacement(s[1..]);
      }
      assert [s[0]] + s[1..] == s;
    }
  }

  /** The first index at or after `from` where `key` occurs, if any. */
  function FindFrom(s: string, key: string, from: nat): (r: Option<nat>)
    requires from <= |s| + 1
    ensures r.Some? ==> from <= r.value && OccursAt(s, key, r.value)
    ensures forall j :: from <= j < (if r.Some? then r.value else |s| + 1) ==> !OccursAt(s, key, j)
    decreases |s| + 1 - from
  {
    if from + |key| > |s| then None
    else if OccursAt(s, key, from) then Some(from)
    else FindFrom(s, key, from + 1)
  }

  /**
   * `s.replaceFirst(quote(key), rep)`: a null replacement throws; no occurrence
   * leaves `s` as it is; otherwise the first occurrence is replaced by the
   * expanded replacement text.
   */
  function ReplaceFirst(s: string, key: string, rep: Option<string>): (r: Result<string>)
    ensures rep.None? ==> r == Err(NullPointer)
    ensures rep.Some? && !Contains(s, key) ==> r == Ok(s)
  {
    if rep.None? then Err(NullPointer)
    else
      match FindFrom(s, key, 0)
      case None => Ok(s)
      case Some(i) =>
        var t :- ExpandReplacement(rep.value, key);
        Ok(s[..i] + t + s[i + |key|..])
  }

  /**
   * A placeholder (which starts with `$`) preceded by `$`-free text is the first
   * occurrence: it is the one replaced.
   */
  lemma ReplaceFirstAfterPlainText(pre: string, key: string, post: string, rep: string)
    requires |key| > 0 && key[0] == '$' && '$' !in pre
    ensures ReplaceFirst(pre + key + post, key, Some(rep)) ==
              (match ExpandReplacement(rep, key)
               case Ok(t) => Ok(pre + t + post)
               case Err(e) => Err(e))
  {
    var s := pre + key + post;
    assert OccursAt(s, key, |pre|);
    forall j | 0 <= j < |pre|
      ensures !OccursAt(s, key, j)
    {
      assert s[j..j + |key|][0] == s[j] == pre[j] != key[0];
    }
    var f := FindFrom(s, key, 0);
    assert f == Some(|pre|);
    assert s[..|pre|] == pre;
    assert s[|pre| + |key|..] == post;
  }

  // ===========================================================================
  // genUrl

  /** The types whose pattern has exactly the host, port and path slots, in that order. */
  predicate HasThreeSlots(t: DbType) {
    !(t.OracleRac? || t.MySql? || t.Sqlite? || t.Unlisted?)
  }

  /** The literal text around the slots: the pattern is `A ${ip} B ${port} C ${path} D`. */
  function Slots(t: DbType): (s: (string, string, string, string))
    requires HasThreeSlots(t)
    ensures '$' !in s.0 && '$' !in s.1 && '$' !in s.2 && '$' !in s.3
  {
    match t
    case OracleServiceName => ("jdbc:oracle:thin:@//", ":", "/", "")
    case Oracle => ("jdbc:oracle:thin:@", ":", ":", "")
    case Db2 => ("jdbc:db2://", ":", "/", "")
    case Sybase => ("jdbc:sybase:Tds:", ":", "/", "?charset=cp936")
    case Gbase => ("jdbc:gbase://", ":", "/", "")
    case Mssql => ("jdbc:sqlserver://", ":", ";databaseName=", "")
    case Firebird => ("jdbc:firebirdsql:", "/", ":", "")
    case Kingbase => ("jdbc:kingbase://", ":", "/", "")
    case Dm => ("jdbc:dm://", ":", "/", "")
  }

  /** The MySQL options around the `${charSet}` slot. */
  const MYSQL_OPTIONS: string := "?useUnicode=true&characterEncoding="
  const MYSQL_TAIL: string := "&useSSL=false&serverTimezone=UTC"

  /** The URL pattern per type. */
  function UrlPattern(t: DbType): string {
    if HasThreeSlots(t) then
      var s := Slots(t);
      s.0 + "${ip}" + s.1 + "${port}" + s.2 + "${path}" + s.3
    else
      match t
      case OracleRac =>
        "jdbc:oracle:thin:@(DESCRIPTION =(ADDRESS = (PROTOCOL = TCP)(HOST = ${ip})(PORT = ${port}))"
        + "(ADDRESS = (PROTOCOL = TCP)(HOST = ${ip_rac})(PORT = ${port_rac}))(LOAD_BALANCE = yes)(FAILOVER = ON)"
        + "(CONNECT_DATA =(SERVER = DEDICATED)(SERVICE_NAME = ${path})"
        + "(FAILOVER_MODE=(TYPE = SELECT)(METHOD = BASIC)(RETIRES = 20)(DELAY = 15))))"
      case MySql =>
        "jdbc:mysql://" + "${ip}" + ":" + "${port}" + "/" + "${path}" + MYSQL_OPTIONS + "${charSet}" + MYSQL_TAIL
      case _ => "jdbc:sqlite:${path}"
  }

  /** Types whose database is a local file: their path is resolved first. */
  predicate IsFileDatabase(t: DbType) {
    t.Firebird? || t.Sqlite? || t.Unlisted?
  }

  /**
   * getActualPath: a path not starting with "." is used as given. For a
   * relative one the file system answers: `canonical` is the canonical form of
   * the default prefix joined with the path (None when no prefix is set or
   * canonicalisation failed) and `absolute` the path made absolute.
   */
  function ActualPath(path: string, canonical: Option<string>, absolute: string): (r: string)
    ensures !StartsWith(path, ".") ==> r == path
  {
    if !StartsWith(path, ".") then path
    else if canonical.Some? then canonical.value
    else absolute
  }

  /** The `${charSet}` step: only when the URL so far mentions charSet at all. */
  function FillCharSet(url: string, charSet: Option<string>): (r: Result<string>)
    ensures !Contains(url, "charSet") ==> r == Ok(url)
  {
    if Contains(url, "charSet") then ReplaceFirst(url, "${charSet}", charSet) else Ok(url)
  }

  /** The RAC step: the second node's host and port from the extra parameters. */
  function FillRac(url: string, ext: Option<map<string, string>>): (r: Result<string>)
    ensures ext.None? ==> r == Err(NullPointer)
    ensures r.Ok? ==> ext.Some? && "RAC_IP" in ext.value && "RAC_PORT" in ext.value
  {
    if ext.None? then Err(NullPointer)
    else
      var ipRac := if "RAC_IP" in ext.value then Some(ext.value["RAC_IP"]) else None;
      var portRac := if "RAC_PORT" in ext.value then Some(ext.value["RAC_PORT"]) else None;
      var u :- ReplaceFirst(url, "${ip_rac}", ipRac);
      ReplaceFirst(u, "${port_rac}", portRac)
  }

  /**
   * The four replacements genUrl applies to every pattern, in order: ip, port,
   * charSet (when mentioned) and the path. Java
   * evaluates the path argument, and so throws on a null path, only at the
   * last step.
   */
  function FillPattern(pattern: string, ip: Option<string>, port: int, charSet: Option<string>,
                       path: Option<string>, quote: bool): (r: Result<string>)
    ensures ip.None? ==> r == Err(NullPointer)
    ensures r.Ok? ==> path.Some?
  {
    var u1 :- ReplaceFirst(pattern, "${ip}", ip);
    var u2 :- ReplaceFirst(u1, "${port}", Some(IntToString(port)));
    var u3 :- FillCharSet(u2, charSet);
    if path.None? then Err(NullPointer)
    else ReplaceFirst(u3, "${path}", Some(PathText(path.value, quote)))
  }

  /**
   * The replacement text for the path: as written only its backslashes are
   * doubled; `quote` selects full quoting of `\` and `$`.
   */
  function PathText(path: string, quote: bool): string {
    if quote then QuoteReplacement(path) else DoubleBackslashes(path)
  }

  /**
   * genUrl: pick the pattern, fill it, and for RAC fill the second node. Null
   * settings surface as NullPointer where Java dereferences them; a
   * replacement text that misuses `$` or ends in `\` surfaces as
   * IllegalReplacement.
   */
  function Generate(cfg: DbCfg, canonical: Option<string>, absolute: string, quote: bool): (r: Result<string>)
    ensures cfg.dbType.None? || cfg.ip.None? ==> r == Err(NullPointer)
    ensures r.Ok? ==> cfg.namePath.Some?
    ensures r.Ok? && cfg.dbType.value == OracleRac ==>
              cfg.extParam.Some? && "RAC_IP" in cfg.extParam.value && "RAC_PORT" in cfg.extParam.value
    ensures cfg.dbType.Some? && cfg.dbType.value != OracleRac && cfg.namePath.Some? ==>
              r == FillPattern(UrlPattern(cfg.dbType.value), cfg.ip, cfg.port, cfg.charSet, Some(UrlPath(cfg, canonical, absolute)), quote)
  {
    if cfg.dbType.None? then Err(NullPointer)
    else
      var t := cfg.dbType.value;
      if IsFileDatabase(t) && cfg.namePath.None? then Err(NullPointer)
      else
        var actual := if IsFileDatabase(t) then Some(ActualPath(cfg.namePath.value, canonical, absolute)) else cfg.namePath;
        var u :- FillPattern(UrlPattern(t), cfg.ip, cfg.port, cfg.charSet, actual, quote);
        if t == OracleRac then FillRac(u, cfg.extParam) else Ok(u)
  }

  /** genUrl as written: the path's backslashes doubled, its `$` left as they are. */
  function GenUrl(cfg: DbCfg, canonical: Option<string>, absolute: string): Result<string> {
    Generate(cfg, canonical, absolute, false)
  }

  /** genUrl with the path quoted in full. */
  function GenUrlQuoted(cfg: DbCfg, canonical: Option<string>, absolute: string): Result<string> {
    Generate(cfg, canonical, absolute, true)
  }

  /** The path genUrl puts into the URL: resolved for file databases, as configured otherwise. */
  function UrlPath(cfg: DbCfg, canonical: Option<string>, absolute: string): string
    requires cfg.dbType.Some? && cfg.namePath.Some?
  {
    if IsFileDatabase(cfg.dbType.value) then ActualPath(cfg.namePath.value, canonical, absolute)
    else cfg.namePath.value
  }

  /** One placeholder filled with plain text after plain text. */
  lemma FillPlain(pre: string, key: string, post: string, v: string)
    requires |key| > 0 && key[0] == '$' && '$' !in pre && '$' !in v && '\\' !in v
    ensures ReplaceFirst(pre + key + post, key, Some(v)) == Ok(pre + v + post)
  {
    ReplaceFirstAfterPlainText(pre, key, post, v);
    PlainReplacementIsLiteral(v, key);
  }

  /** With `${path}` the only `$` left, no other placeholder is found. */
  lemma OnlyPathPlaceholderLeft(pre: string, post: string, key: string)
    requires '$' !in pre && '$' !in post && |key| >= 3 && key[0] == '$' && key[2] != 'p'
    ensures !Contains(pre + "${path}" + post, key)
  {
    var s := pre + "${path}" + post;
    forall j | 0 <= j <= |s| - |key|
      ensures !OccursAt(s, key, j)
    {
      var w := s[j..j + |key|];
      if j < |pre| {
        assert w[0] == pre[j] != key[0];
      } else if j == |pre| {
        assert w[2] == 'p' != key[2];
      } else if j < |pre| + 7 {
        assert w[0] == "${path}"[j - |pre|] != key[0];
      } else {
        assert w[0] == post[j - |pre| - 7] != key[0];
      }
    }
  }

  /** A port prints as digits and a sign: plain replacement text. */
  lemma PortIsPlain(port: int)
    ensures '$' !in IntToString(port) && '\\' !in IntToString(port)
  {
    var s := IntToString(port);
    forall i | 0 <= i < |s|
      ensures s[i] != '$' && s[i] != '\\'
    {
      assert IsDigit(s[i]) || s[i] == '-';
    }
  }

  /** The host and port steps: `A ${ip} B ${port} C ${path} D` becomes `A ip B port C ${path} D`. */
  lemma FillHostAndPort(a: string, b: string, c: string, d: string, ip: string, port: int) returns (u1: string)
    requires '$' !in a && '$' !in b && '$' !in ip && '\\' !in ip
    ensures ReplaceFirst(a + "${ip}" + b + "${port}" + c + "${path}" + d, "${ip}", Some(ip)) == Ok(u1)
    ensures ReplaceFirst(u1, "${port}", Some(IntToString(port))) ==
              Ok((a + ip + b + IntToString(port) + c) + "${path}" + d)
  {
    var rest := c + "${path}" + d;
    var pattern := a + "${ip}" + b + "${port}" + c + "${path}" + d;
    u1 := a + ip + (b + "${port}" + rest);
    assert ReplaceFirst(pattern, "${ip}", Some(ip)) == Ok(u1) by {
      assert pattern == a + "${ip}" + (b + "${port}" + rest);
      FillPlain(a, "${ip}", b + "${port}" + rest, ip);
    }
    var port' := IntToString(port);
    assert ReplaceFirst(u1, "${port}", Some(port')) == Ok((a + ip + b) + port' + rest) by {
      assert u1 == (a + ip + b) + "${port}" + rest;
      PortIsPlain(port);
      FillPlain(a + ip + b, "${port}", rest, port');
    }
    assert (a + ip + b) + port' + rest == (a + ip + b + port' + c) + "${path}" + d;
  }

  /** FillPattern reaches its path step when the host, port and charSet steps succeed. */
  lemma FillPatternChain(pattern: string, ip: string, port: int, charSet: string, path: string, quote: bool,
                         u1: string, u2: string, u3: string)
    requires ReplaceFirst(pattern, "${ip}", Some(ip)) == Ok(u1)
    requires ReplaceFirst(u1, "${port}", Some(IntToString(port))) == Ok(u2)
    requires FillCharSet(u2, Some(charSet)) == Ok(u3)
    ensures FillPattern(pattern, Some(ip), port, Some(charSet), Some(path), quote) ==
              ReplaceFirst(u3, "${path}", Some(PathText(path, quote)))
  {
  }

  /**
   * On a pattern `A ${ip} B ${port} C ${path} D` with no other `$` and a
   * `$`-free host without backslashes, everything up to the path step is
   * plain substitution: the outcome is the path step on `A ip B port C ${path} D`.
   */
  lemma FillUpToPath(a: string, b: string, c: string, d: string,
                     ip: string, port: int, charSet: string, path: string, quote: bool) returns (pre: string)
    requires '$' !in a && '$' !in b && '$' !in c && '$' !in d
    requires '$' !in ip && '\\' !in ip
    ensures pre == a + ip + b + IntToString(port) + c && '$' !in pre
    ensures FillPattern(a + "${ip}" + b + "${port}" + c + "${path}" + d, Some(ip), port, Some(charSet), Some(path), quote) ==
              ReplaceFirst(pre + "${path}" + d, "${path}", Some(PathText(path, quote)))
  {
    var u1 := FillHostAndPort(a, b, c, d, ip, port);
    pre := a + ip + b + IntToString(port) + c;
    assert '$' !in pre by {
      PortIsPlain(port);
    }
    OnlyPathPlaceholderLeft(pre, d, "${charSet}");
    FillPatternChain(a + "${ip}" + b + "${port}" + c + "${path}" + d, ip, port, charSet, path, quote,
                     u1, pre + "${path}" + d, pre + "${path}" + d);
  }

  /**
   * For a pattern `A ${ip} B ${port} C ${path} D` with no other `$`, a `$`-free
   * host without backslashes and a `$`-free path, the result is the pattern
   * with each placeholder replaced by its setting verbatim. A backslash in the
   * path survives because it is doubled first.
   */
  lemma PlainSettingsFillPattern(a: string, b: string, c: string, d: string,
                                 ip: string, port: int, charSet: string, path: string)
    requires '$' !in a && '$' !in b && '$' !in c && '$' !in d
    requires '$' !in ip && '\\' !in ip && '$' !in path
    ensures FillPattern(a + "${ip}" + b + "${port}" + c + "${path}" + d, Some(ip), port, Some(charSet), Some(path), false) ==
              Ok(a + ip + b + IntToString(port) + c + path + d)
  {
    var pre := FillUpToPath(a, b, c, d, ip, port, charSet, path, false);
    ReplaceFirstAfterPlainText(pre, "${path}", d, DoubleBackslashes(path));
    DoubledPathArrivesIntact(path, "${path}");
  }

  /**
   * For every type with host, port and path slots: a `$`-free host without
   * backslashes and a `$`-free path give the pattern with each slot replaced by
   * its setting verbatim.
   */
  lemma PlainSettingsGiveUrl(cfg: DbCfg, canonical: Option<string>, absolute: string)
    requires cfg.dbType.Some? && HasThreeSlots(cfg.dbType.value)
    requires cfg.ip.Some? && '$' !in cfg.ip.value && '\\' !in cfg.ip.value
    requires cfg.namePath.Some? && '$' !in UrlPath(cfg, canonical, absolute)
    requires cfg.charSet.Some?
    ensures var s := Slots(cfg.dbType.value);
            GenUrl(cfg, canonical, absolute) ==
              Ok(s.0 + cfg.ip.value + s.1 + IntToString(cfg.port) + s.2 + UrlPath(cfg, canonical, absolute) + s.3)
  {
    var s := Slots(cfg.dbType.value);
    PlainSettingsFillPattern(s.0, s.1, s.2, s.3, cfg.ip.value, cfg.port, cfg.charSet.value, UrlPath(cfg, canonical, absolute));
  }

  /**
   * As written, a path holding a `$` not followed by 0 (and no backslash) makes
   * genUrl fail for every type with host, port and path slots, although the
   * same settings with the `$` removed give a URL.
   */
  lemma DollarInPathFails(cfg: DbCfg, canonical: Option<string>, absolute: string, pre: string, post: string)
    requires cfg.dbType.Some? && HasThreeSlots(cfg.dbType.value)
    requires cfg.ip.Some? && '$' !in cfg.ip.value && '\\' !in cfg.ip.value
    requires cfg.namePath.Some? && UrlPath(cfg, canonical, absolute) == pre + "$" + post
    requires '$' !in pre && '\\' !in pre && '\\' !in post && (|post| == 0 || post[0] != '0')
    requires cfg.charSet.Some?
    ensures GenUrl(cfg, canonical, absolute) == Err(IllegalReplacement)
  {
    var s := Slots(cfg.dbType.value);
    var path := pre + "$" + post;
    var p := FillUpToPath(s.0, s.1, s.2, s.3, cfg.ip.value, cfg.port, cfg.charSet.value, path, false);
    ReplaceFirstAfterPlainText(p, "${path}", s.3, DoubleBackslashes(path));
    assert '\\' !in path;
    BackslashFreeNotDoubled(path);
    DollarWithoutZeroFails(pre, post, "${path}");
  }

  /** Without backslashes there is nothing to double. */
  lemma {:induction false} BackslashFreeNotDoubled(s: string)
    requires '\\' !in s
    ensures DoubleBackslashes(s) == s
    decreases |s|
  {
    if |s| > 0 {
      BackslashFreeNotDoubled(s[1..]);
      assert [s[0]] + s[1..] == s;
    }
  }

  /** Corrected: with the path quoted in full, any path arrives in the URL verbatim. */
  lemma QuotedPathArrivesVerbatim(cfg: DbCfg, canonical: Option<string>, absolute: string)
    requires cfg.dbType.Some? && HasThreeSlots(cfg.dbType.value)
    requires cfg.ip.Some? && '$' !in cfg.ip.value && '\\' !in cfg.ip.value
    requires cfg.namePath.Some? && cfg.charSet.Some?
    ensures var s := Slots(cfg.dbType.value);
            GenUrlQuoted(cfg, canonical, absolute) ==
              Ok(s.0 + cfg.ip.value + s.1 + IntToString(cfg.port) + s.2 + UrlPath(cfg, canonical, absolute) + s.3)
  {
    var s := Slots(cfg.dbType.value);
    var path := UrlPath(cfg, canonical, absolute);
    var p := FillUpToPath(s.0, s.1, s.2, s.3, cfg.ip.value, cfg.port, cfg.charSet.value, path, true);
    ReplaceFirstAfterPlainText(p, "${path}", s.3, QuoteReplacement(path));
    QuotedTextArrivesIntact(path, "${path}");
  }

  /** The correction agrees with genUrl as written wherever the path has no `$`. */
  lemma QuotingChangesOnlyDollarPaths(cfg: DbCfg, canonical: Option<string>, absolute: string)
    requires cfg.dbType.Some? && HasThreeSlots(cfg.dbType.value)
    requires cfg.ip.Some? && '$' !in cfg.ip.value && '\\' !in cfg.ip.value
    requires cfg.namePath.Some? && '$' !in UrlPath(cfg, canonical, absolute) && cfg.charSet.Some?
    ensures GenUrlQuoted(cfg, canonical, absolute) == GenUrl(cfg, canonical, absolute)
  {
    PlainSettingsGiveUrl(cfg, canonical, absolute);
    QuotedPathArrivesVerbatim(cfg, canonical, absolute);
  }

  /** A host with a `$` not followed by 0 fails the fill of any pattern that has a `${ip}` slot. */
  lemma DollarInHostFails(pattern: string, pre: string, post: string, port: int, charSet: Option<string>,
                          path: Option<string>, quote: bool)
    requires Contains(pattern, "${ip}")
    requires '$' !in pre && '\\' !in pre && (|post| == 0 || post[0] != '0')
    ensures FillPattern(pattern, Some(pre + "$" + post), port, charSet, path, quote) == Err(IllegalReplacement)
  {
    DollarWithoutZeroFails(pre, post, "${ip}");
    var i :| 0 <= i <= |pattern| - 5 && OccursAt(pattern, "${ip}", i);
    assert FindFrom(pattern, "${ip}", 0).Some?;
  }

  /** replaceFirst replaces the occurrence at `i` when no earlier position holds the key. */
  lemma ReplaceFirstAt(s: string, key: string, i: nat, rep: string, t: string)
    requires OccursAt(s, key, i) && forall j :: 0 <= j < i ==> !OccursAt(s, key, j)
    requires ExpandReplacement(rep, key) == Ok(t)
    ensures ReplaceFirst(s, key, Some(rep)) == Ok(s[..i] + t + s[i + |key|..])
  {
    var f := FindFrom(s, key, 0);
    assert i < |s| + 1;
    assert f.Some?;
    assert f.value <= i;
    assert f.value == i;
  }

  /** In `P ${path} D1` with `$`-free P and D1, the only `$` is the one opening `${path}`. */
  lemma DollarOnlyOpensPath(pre: string, d1: string, j: nat)
    requires '$' !in pre && '$' !in d1
    requires j < |pre + "${path}" + d1|
    ensures (pre + "${path}" + d1)[j] == '$' ==> j == |pre|
  {
    var x := pre + "${path}" + d1;
    if j < |pre| {
      assert x[j] == pre[j];
    } else if j >= |pre| + 7 {
      assert x[j] == d1[j - |pre| - 7];
    } else {
      assert x[j] == "${path}"[j - |pre|];
    }
  }

  /** The `${charSet}` after `P ${path} D1` is the first one. */
  lemma CharSetFirstAfterPath(pre: string, d1: string, d2: string)
    requires '$' !in pre && '$' !in d1
    ensures var x := pre + "${path}" + d1;
            OccursAt(x + "${charSet}" + d2, "${charSet}", |x|) &&
            forall j :: 0 <= j < |x| ==> !OccursAt(x + "${charSet}" + d2, "${charSet}", j)
  {
    var x := pre + "${path}" + d1;
    var key := "${charSet}";
    var s := x + key + d2;
    assert s[|x|..|x| + |key|] == key;
    forall j | 0 <= j < |x|
      ensures !OccursAt(s, key, j)
    {
      if j + |key| <= |s| && s[j] == '$' {
        assert s[j] == x[j];
        DollarOnlyOpensPath(pre, d1, j);
        assert s[j + 2] == x[j + 2] == 'p';
        assert s[j..j + |key|][2] != key[2];
      } else if j + |key| <= |s| {
        assert s[j..j + |key|][0] != key[0];
      }
    }
  }

  /** The charSet step on `P ${path} D1 ${charSet} D2` with no other `$` puts a plain charSet in place. */
  lemma FillCharSetAfterPath(pre: string, d1: string, d2: string, charSet: string)
    requires '$' !in pre && '$' !in d1 && '$' !in charSet && '\\' !in charSet
    ensures FillCharSet(pre + "${path}" + d1 + "${charSet}" + d2, Some(charSet))
            == Ok(pre + "${path}" + d1 + charSet + d2)
  {
    var x := pre + "${path}" + d1;
    var key := "${charSet}";
    var s := x + key + d2;
    CharSetFirstAfterPath(pre, d1, d2);
    assert Contains(s, "charSet") by {
      assert s[|x| + 2..|x| + 9] == "charSet";
      assert OccursAt(s, "charSet", |x| + 2);
    }
    PlainReplacementIsLiteral(charSet, key);
    ReplaceFirstAt(s, key, |x|, charSet, charSet);
    assert s[..|x|] == x && s[|x| + |key|..] == d2;
  }

  /** The path step: after a `$`-free prefix, a `$`-free path lands verbatim. */
  lemma FillPathAfterPlain(pre: string, post: string, path: string)
    requires '$' !in pre && '$' !in path
    ensures ReplaceFirst(pre + "${path}" + post, "${path}", Some(DoubleBackslashes(path))) == Ok(pre + path + post)
  {
    ReplaceFirstAfterPlainText(pre, "${path}", post, DoubleBackslashes(path));
    DoubledPathArrivesIntact(path, "${path}");
  }

  /** Regrouping the tail of a concatenation. */
  lemma RegroupTail(x: string, p: string, q: string, r: string)
    ensures x + p + q + r == x + (p + q + r)
  {
  }

  /**
   * On a pattern `A ${ip} B ${port} C ${path} D1 ${charSet} D2` with no other
   * `$`, a plain host and charSet and a `$`-free path land verbatim.
   */
  lemma PlainSettingsFillCharSetPattern(a: string, b: string, c: string, d1: string, d2: string,
                                        ip: string, port: int, cs: string, path: string)
    requires '$' !in a && '$' !in b && '$' !in c && '$' !in d1 && '$' !in d2
    requires '$' !in ip && '\\' !in ip && '$' !in cs && '\\' !in cs && '$' !in path
    ensures FillPattern(a + "${ip}" + b + "${port}" + c + "${path}" + d1 + "${charSet}" + d2,
                        Some(ip), port, Some(cs), Some(path), false)
            == Ok(a + ip + b + IntToString(port) + c + path + d1 + cs + d2)
  {
    var d := d1 + "${charSet}" + d2;
    var pattern := a + "${ip}" + b + "${port}" + c + "${path}" + d1 + "${charSet}" + d2;
    var u1 := FillHostAndPort(a, b, c, d, ip, port);
    assert pattern == a + "${ip}" + b + "${port}" + c + "${path}" + d by {
      RegroupTail(a + "${ip}" + b + "${port}" + c + "${path}", d1, "${charSet}", d2);
    }
    var pre := a + ip + b + IntToString(port) + c;
    assert '$' !in pre by {
      PortIsPlain(port);
    }
    var u2 := pre + "${path}" + d;
    var u3 := pre + "${path}" + d1 + cs + d2;
    assert FillCharSet(u2, Some(cs)) == Ok(u3) by {
      RegroupTail(pre + "${path}", d1, "${charSet}", d2);
      FillCharSetAfterPath(pre, d1, d2, cs);
    }
    assert ReplaceFirst(u3, "${path}", Some(DoubleBackslashes(path))) == Ok(pre + path + d1 + cs + d2) by {
      RegroupTail(pre + "${path}", d1, cs, d2);
      RegroupTail(pre + path, d1, cs, d2);
      FillPathAfterPlain(pre, d1 + cs + d2, path);
    }
    FillPatternChain(pattern, ip, port, cs, path, false, u1, u2, u3);
  }

  /**
   * MySQL: a plain host, charSet and `$`-free path give
   * `jdbc:mysql://ip:port/path?useUnicode=true&characterEncoding=<charSet>&useSSL=false&serverTimezone=UTC`.
   */
  lemma MySqlUrl(cfg: DbCfg, canonical: Option<string>, absolute: string)
    requires cfg.dbType == Some(MySql)
    requires cfg.ip.Some? && '$' !in cfg.ip.value && '\\' !in cfg.ip.value
    requires cfg.charSet.Some? && '$' !in cfg.charSet.value && '\\' !in cfg.charSet.value
    requires cfg.namePath.Some? && '$' !in cfg.namePath.value
    ensures GenUrl(cfg, canonical, absolute) ==
              Ok("jdbc:mysql://" + cfg.ip.value + ":" + IntToString(cfg.port) + "/" + cfg.namePath.value
                 + MYSQL_OPTIONS + cfg.charSet.value + MYSQL_TAIL)
  {
    MySqlSlotsPlain();
    PlainSettingsFillCharSetPattern("jdbc:mysql://", ":", "/", MYSQL_OPTIONS, MYSQL_TAIL,
                                    cfg.ip.value, cfg.port, cfg.charSet.value, cfg.namePath.value);
    assert GenUrl(cfg, canonical, absolute) ==
             FillPattern(UrlPattern(MySql), cfg.ip, cfg.port, cfg.charSet, cfg.namePath, false);
  }

  /** The literal text of the MySQL pattern holds no `$`. */
  lemma MySqlSlotsPlain()
    ensures '$' !in "jdbc:mysql://" && '$' !in ":" && '$' !in "/" && '$' !in MYSQL_OPTIONS && '$' !in MYSQL_TAIL
  {
  }

  // ===========================================================================
  // Driver class and script file name

  /** getDriver: the JDBC driver class per type; a null type throws. */
  function GetDriver(t: Option<DbType>): (r: Result<string>)
    ensures r.Err? <==> t.None?
  {
    if t.None? then Err(NullPointer)
    else Ok(match t.value
      case OracleServiceName => DbOpOracle.ORACLE_DRIVER
      case Oracle => DbOpOracle.ORACLE_DRIVER
      case OracleRac => DbOpOracle.ORACLE_DRIVER
      case Db2 => "com.ibm.db2.jcc.DB2Driver"
      case Sybase => "com.sybase.jdbc3.jdbc.SybDriver"
      case Gbase => "com.gbase.jdbc.Driver"
      case Mssql => "com.microsoft.sqlserver.jdbc.SQLServerDriver"
      case MySql => "com.mysql.jdbc.Driver"
      case Firebird => "org.firebirdsql.jdbc.FBDriver"
      case Kingbase => "com.kingbase.Driver"
      case Dm => "dm.jdbc.driver.DmDriver"
      case _ => "org.sqlite.JDBC")
  }

  /** The three ways of reaching an Oracle server: service name, SID and RAC. */
  predicate IsOracleFamily(t: DbType) {
    t.OracleServiceName? || t.Oracle? || t.OracleRac?
  }

  /** The Oracle driver is chosen for exactly the Oracle family. */
  lemma OracleDriverIffOracleFamily(t: DbType)
    ensures GetDriver(Some(t)) == Ok(DbOpOracle.ORACLE_DRIVER) <==> IsOracleFamily(t)
  {
    var d, o := GetDriver(Some(t)).value, DbOpOracle.ORACLE_DRIVER;
    assert o[0] == 'o' && o[2] == 'a';
    match t
    case Db2 => assert d[0] == 'c';
    case Sybase => assert d[0] == 'c';
    case Gbase => assert d[0] == 'c';
    case Mssql =>
      assert d == "com.microsoft.sqlserver.jdbc.SQLServerDriver";
      assert d[0] == 'c';
    case MySql => assert d[0] == 'c';
    case Firebird => assert d[2] == 'g';
    case Kingbase => assert d[0] == 'c';
    case Dm => assert d[0] == 'd';
    case Sqlite => assert d[2] == 'g';
    case Unlisted(_) => assert d[2] == 'g';
    case _ =>
  }

  /** The script stem as the switch in getSqlFile is written (ORACLE_SERVICE_NAME has no case). */
  function ScriptStemAsWritten(t: DbType): string {
    match t
    case Oracle => "oracle"
    case OracleRac => "oracle"
    case Db2 => "db2"
    case Sybase => "sybase"
    case Gbase => "gbase"
    case Mssql => "mssql"
    case MySql => "mysql"
    case Firebird => "firebird"
    case Kingbase => "kingbase"
    case Dm => "dm"
    case _ => "sqlite"
  }

  /** The stem with the Oracle service-name form grouped with the other Oracle forms. */
  function ScriptStem(t: DbType): string {
    if t == OracleServiceName then "oracle" else ScriptStemAsWritten(t)
  }

  /** getSqlFile(dbType) as written: the script name; a null type throws. */
  function SqlFileNameAsWritten(t: Option<DbType>): (r: Result<string>)
    ensures r.Err? <==> t.None?
    ensures r.Ok? ==> EndsWith(r.value, ".sql")
  {
    if t.None? then Err(NullPointer) else Ok(ScriptStemAsWritten(t.value) + ".sql")
  }

  /** getSqlFile(dbType), corrected. */
  function SqlFileName(t: Option<DbType>): (r: Result<string>)
    ensures r.Err? <==> t.None?
    ensures r.Ok? ==> EndsWith(r.value, ".sql")
  {
    if t.None? then Err(NullPointer) else Ok(ScriptStem(t.value) + ".sql")
  }

  /**
   * getSqlFile(dbType, sqlFilePath) as written: the directory, the platform
   * separator, then the same name the one-argument overload returns. A null
   * directory prints as "null".
   */
  function SqlFilePathAsWritten(t: Option<DbType>, dir: Option<string>, sep: char): (r: Result<string>)
    ensures r.Err? <==> t.None?
    ensures r.Ok? ==> StartsWith(r.value, TextOf(dir) + [sep]) &&
                      r.value[|TextOf(dir)| + 1..] == SqlFileNameAsWritten(t).value
  {
    if t.None? then Err(NullPointer)
    else
      var d := TextOf(dir) + [sep];
      var name := ScriptStemAsWritten(t.value) + ".sql";
      assert (d + name)[..|d|] == d && (d + name)[|d|..] == name;
      Ok(d + name)
  }

  /** getSqlFile(dbType, sqlFilePath), corrected. */
  function SqlFilePath(t: Option<DbType>, dir: Option<string>, sep: char): (r: Result<string>)
    ensures r.Err? <==> t.None?
    ensures r.Ok? ==> StartsWith(r.value, TextOf(dir) + [sep]) &&
                      r.value[|TextOf(dir)| + 1..] == SqlFileName(t).value
  {
    if t.None? then Err(NullPointer)
    else
      var d := TextOf(dir) + [sep];
      var name := ScriptStem(t.value) + ".sql";
      assert (d + name)[..|d|] == d && (d + name)[|d|..] == name;
      Ok(d + name)
  }

  /**
   * As written, the Oracle service-name type connects with the Oracle driver
   * but is given the SQLite script, not the Oracle one.
   */
  lemma ServiceNameGetsSqliteScript()
    ensures GetDriver(Some(OracleServiceName)) == GetDriver(Some(Oracle))
    ensures SqlFileNameAsWritten(Some(OracleServiceName)) == SqlFileNameAsWritten(Some(Sqlite))
    ensures SqlFileNameAsWritten(Some(OracleServiceName)) != SqlFileNameAsWritten(Some(Oracle))
  {
    assert SqlFileNameAsWritten(Some(OracleServiceName)).value[0] == 's';
    assert SqlFileNameAsWritten(Some(Oracle)).value[0] == 'o';
  }

  /** Corrected: the Oracle script goes with exactly the Oracle family, as the Oracle driver does. */
  lemma OracleScriptIffOracleFamily(t: DbType)
    ensures SqlFileName(Some(t)) == SqlFileName(Some(Oracle)) <==> IsOracleFamily(t)
  {
    var n, o := SqlFileName(Some(t)).value, SqlFileName(Some(Oracle)).value;
    assert o[0] == 'o';
    match t
    case Db2 => assert n[0] == 'd';
    case Sybase => assert n[0] == 's';
    case Gbase => assert n[0] == 'g';
    case Mssql => assert n[0] == 'm';
    case MySql => assert n[0] == 'm';
    case Firebird => assert n[0] == 'f';
    case Kingbase => assert n[0] == 'k';
    case Dm => assert n[0] == 'd';
    case Sqlite => assert n[0] == 's';
    case Unlisted(_) => assert n[0] == 's';
    case _ =>
  }

  /** The correction changes only the service-name type. */
  lemma CorrectionOnlyTouchesServiceName(t: DbType)
    requires t != OracleServiceName
    ensures SqlFileName(Some(t)) == SqlFileNameAsWritten(Some(t))
  {
  }
}
