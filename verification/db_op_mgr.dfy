/**
 * DbOpMgr: the registry that picks an executor for a JDBC driver and version.
 * Dialects register themselves under `driver(version)`; the first lookup
 * registers the known dialects; a lookup that finds nothing gets the base
 * executor.
 */
module DbOpMgr {
  import opened Common
  import DbOpOracle

  /** Which executor a lookup hands back. Dialects other than Oracle are identified by name. */
  datatype Executor = Baseline | Oracle | Dialect(name: string)

  /** One `register(jdbcDriver, version, dbOp)` call; a null executor is None. */
  datatype Registration = Registration(driver: Option<string>, version: int, op: Option<Executor>)

  /** The static state: the registration map and whether the defaults were registered. */
  datatype Registry = Registry(regs: map<string, Option<Executor>>, init: bool)

  /** getID: `jdbcDriver + "(" + version + ")"`, a null driver printing as "null". */
  function GetId(driver: Option<string>, version: int): string {
    TextOf(driver) + "(" + IntToString(version) + ")"
  }

  /** The index of the first '(' pins down the driver part of an id. */
  lemma FirstParen(a: string, b: string, x: string, y: string)
    requires '(' !in a && '(' !in b && a + "(" + x == b + "(" + y
    ensures a == b && x == y
  {
    var s := a + "(" + x;
    assert s[|a|] == '(' && s[|b|] == '(';
    assert forall i :: 0 <= i < |a| ==> s[i] == a[i];
    assert forall i :: 0 <= i < |b| ==> s[i] == b[i];
    assert |a| == |b|;
    assert a == s[..|a|] == b;
    assert x == s[|a| + 1..] == y;
  }

  /**
   * Ids identify registrations: for driver names without '(' equal ids mean
   * equal driver text and equal version.
   */
  lemma GetIdInjective(d1: Option<string>, v1: int, d2: Option<string>, v2: int)
    requires '(' !in TextOf(d1) && '(' !in TextOf(d2)
    requires GetId(d1, v1) == GetId(d2, v2)
    ensures TextOf(d1) == TextOf(d2) && v1 == v2
  {
    var s1, s2 := IntToString(v1), IntToString(v2);
    assert GetId(d1, v1) == TextOf(d1) + "(" + (s1 + ")");
    assert GetId(d2, v2) == TextOf(d2) + "(" + (s2 + ")");
    FirstParen(TextOf(d1), TextOf(d2), s1 + ")", s2 + ")");
    assert s1 == (s1 + ")")[..|s1|];
    assert s2 == (s2 + ")")[..|s2|];
    IntToStringInjective(v1, v2);
  }

  /** A null driver and the driver named "null" share every id. */
  lemma NullDriverAliasesNullText(version: int)
    ensures GetId(None, version) == GetId(Some("null"), version)
  {
  }

  /** register: the id now maps to the executor, every other id keeps its entry. */
  function Register(reg: Registry, r: Registration): (out: Registry)
    ensures out.init == reg.init
    ensures GetId(r.driver, r.version) in out.regs && out.regs[GetId(r.driver, r.version)] == r.op
    ensures forall id :: id != GetId(r.driver, r.version) ==> (id in out.regs <==> id in reg.regs)
    ensures forall id :: id != GetId(r.driver, r.version) && id in reg.regs ==> out.regs[id] == reg.regs[id]
  {
    reg.(regs := reg.regs[GetId(r.driver, r.version) := r.op])
  }

  /** The id a registration is stored under. */
  function IdOf(r: Registration): string {
    GetId(r.driver, r.version)
  }

  /** A sequence of register calls, in order. */
  function RegisterAll(reg: Registry, rs: seq<Registration>): (out: Registry)
    ensures out.init == reg.init
  {
    if |rs| == 0 then reg else Register(RegisterAll(reg, rs[..|rs| - 1]), rs[|rs| - 1])
  }

  /** Ids nobody registers keep their entries. */
  lemma {:induction false} RegisterAllUntouched(reg: Registry, rs: seq<Registration>, id: string)
    requires forall j :: 0 <= j < |rs| ==> IdOf(rs[j]) != id
    ensures var out := RegisterAll(reg, rs);
            (id in out.regs <==> id in reg.regs) && (id in reg.regs ==> out.regs[id] == reg.regs[id])
  {
    if |rs| > 0 {
      var pre := rs[..|rs| - 1];
      assert forall j :: 0 <= j < |pre| ==> pre[j] == rs[j];
      RegisterAllUntouched(reg, pre, id);
    }
  }

  /** The last registration of an id decides its entry. */
  lemma {:induction false} RegisterAllLastWins(reg: Registry, rs: seq<Registration>, i: nat, id: string)
    requires i < |rs| && IdOf(rs[i]) == id
    requires forall j :: i < j < |rs| ==> IdOf(rs[j]) != id
    ensures id in RegisterAll(reg, rs).regs && RegisterAll(reg, rs).regs[id] == rs[i].op
  {
    if i < |rs| - 1 {
      var pre := rs[..|rs| - 1];
      assert forall j :: 0 <= j < |pre| ==> pre[j] == rs[j];
      RegisterAllLastWins(reg, pre, i, id);
    }
  }

  /** DbOpOracle.register: the Oracle executor under each of its driver versions. */
  function OracleRegistrations(): (rs: seq<Registration>)
    ensures |rs| == |DbOpOracle.ORACLE_VERSIONS|
    ensures forall i :: 0 <= i < |rs| ==>
              rs[i] == Registration(Some(DbOpOracle.ORACLE_DRIVER), DbOpOracle.ORACLE_VERSIONS[i], Some(Oracle))
  {
    var vs := DbOpOracle.ORACLE_VERSIONS;
    seq(|vs|, i requires 0 <= i < |vs| => Registration(Some(DbOpOracle.ORACLE_DRIVER), vs[i], Some(Oracle)))
  }

  /**
   * regDefault: the Oracle registrations, then whatever the MySQL dialect
   * registers. `mysqlRegs` are the calls it makes before returning (or before
   * throwing: the exception is caught, and what was registered stays).
   */
  function RegDefault(reg: Registry, mysqlRegs: seq<Registration>): Registry {
    RegisterAll(reg, OracleRegistrations() + mysqlRegs)
  }

  /**
   * getDbOp: registers the defaults on the first call, then looks the id up,
   * falling back to the base executor when the id is absent or was registered
   * with null. Returns the new state and the executor.
   */
  function GetDbOp(reg: Registry, driver: Option<string>, version: int,
                   mysqlRegs: seq<Registration>): (out: (Registry, Executor))
    ensures out.0.init
    ensures reg.init ==> out.0 == reg
    ensures !reg.init ==> out.0 == RegDefault(reg, mysqlRegs).(init := true)
    ensures GetId(driver, version) in out.0.regs && out.0.regs[GetId(driver, version)].Some? ==>
              out.1 == out.0.regs[GetId(driver, version)].value
    ensures GetId(driver, version) !in out.0.regs || out.0.regs[GetId(driver, version)].None? ==> out.1 == Baseline
  {
    var r := if !reg.init then RegDefault(reg, mysqlRegs).(init := true) else reg;
    var id := GetId(driver, version);
    (r, if id in r.regs && r.regs[id].Some? then r.regs[id].value else Baseline)
  }

  /** The defaults are registered once: a later lookup does not register again. */
  lemma SecondLookupKeepsState(reg: Registry, d1: Option<string>, v1: int, d2: Option<string>, v2: int,
                               mysqlRegs: seq<Registration>)
    ensures var s1 := GetDbOp(reg, d1, v1, mysqlRegs).0;
            GetDbOp(s1, d2, v2, mysqlRegs).0 == s1
  {
  }

  /**
   * After the first lookup, every Oracle driver version resolves to the Oracle
   * executor unless the MySQL dialect registered the same id after it, and a
   * manual registration made earlier under that id is overwritten.
   */
  lemma OracleVersionsResolveToOracle(reg: Registry, version: int, mysqlRegs: seq<Registration>)
    requires !reg.init && version in DbOpOracle.ORACLE_VERSIONS
    requires forall j :: 0 <= j < |mysqlRegs| ==> IdOf(mysqlRegs[j]) != GetId(Some(DbOpOracle.ORACLE_DRIVER), version)
    ensures GetDbOp(reg, Some(DbOpOracle.ORACLE_DRIVER), version, mysqlRegs).1 == Oracle
  {
    var rs := OracleRegistrations() + mysqlRegs;
    var id := GetId(Some(DbOpOracle.ORACLE_DRIVER), version);
    var i :| 0 <= i < |DbOpOracle.ORACLE_VERSIONS| && DbOpOracle.ORACLE_VERSIONS[i] == version;
    var last := if version == 0 then 0 else if version == 8 then 1 else if version == 9 then 2 else 3;
    assert rs[last] == Registration(Some(DbOpOracle.ORACLE_DRIVER), version, Some(Oracle));
    forall j | last < j < |rs|
      ensures IdOf(rs[j]) != id
    {
      if j < 4 {
        var v := DbOpOracle.ORACLE_VERSIONS[j];
        assert rs[j] == Registration(Some(DbOpOracle.ORACLE_DRIVER), v, Some(Oracle));
        assert v != version;
        if IdOf(rs[j]) == id {
          GetIdInjective(rs[j].driver, v, Some(DbOpOracle.ORACLE_DRIVER), version);
        }
      } else {
        assert rs[j] == mysqlRegs[j - 4];
      }
    }
    RegisterAllLastWins(reg, rs, last, id);
  }

  /** A driver and version nobody registered falls back to the base executor. */
  lemma UnregisteredFallsBack(reg: Registry, driver: Option<string>, version: int, mysqlRegs: seq<Registration>)
    requires GetId(driver, version) !in reg.regs
    requires forall j :: 0 <= j < |OracleRegistrations() + mysqlRegs| ==>
               IdOf((OracleRegistrations() + mysqlRegs)[j]) != GetId(driver, version)
    ensures GetDbOp(reg, driver, version, mysqlRegs).1 == Baseline
  {
    RegisterAllUntouched(reg, OracleRegistrations() + mysqlRegs, GetId(driver, version));
  }

  /** A registration with a null executor hides nothing: the lookup falls back to the base executor. */
  lemma NullRegistrationFallsBack(reg: Registry, driver: Option<string>, version: int, mysqlRegs: seq<Registration>)
    requires reg.init
    requires GetId(driver, version) in reg.regs && reg.regs[GetId(driver, version)].None?
    ensures GetDbOp(reg, driver, version, mysqlRegs).1 == Baseline
  {
  }
}
