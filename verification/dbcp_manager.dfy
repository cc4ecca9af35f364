/**
 * DbcpManager: named connection pools. A pool is configured once under its
 * name and registered with the pooling driver; later initialisations of the
 * same name return the existing pool; borrowing needs a configured name.
 */
module DbcpManager {
  import opened Common

  const EVICTION_RUN_MILLIS: int := 300000
  const MAX_WAIT_MILLIS: int := 10000
  const MIN_EVICTABLE_IDLE_MILLIS: int := 300000

  /** How the pool opens physical connections. */
  datatype ConnectionFactory =
    | UrlUserPassword(url: Option<string>, user: Option<string>, password: Option<string>)
    | UrlProperties(url: Option<string>, props: map<string, string>)

  datatype PoolConfig = PoolConfig(
    evictionRunMillis: int,
    maxWaitMillis: int,
    minEvictableIdleMillis: int,
    testOnBorrow: bool,
    maxActive: int,
    validationQuery: Option<string>,
    factory: ConnectionFactory)

  /** A pool: its configuration and the number of idle connections it holds. */
  datatype Pool = Pool(config: PoolConfig, idle: nat)

  /**
   * The static state: the names marked configured (the map only ever holds
   * TRUE, so a set) and the pools the pooling driver has registered by name.
   */
  datatype Dbcp = Dbcp(configured: set<string>, pools: map<string, Pool>)

  /** Every configured name has a registered pool. */
  predicate Valid(st: Dbcp) {
    forall name :: name in st.configured ==> name in st.pools
  }

  /**
   * The connection factory: plain url/user/password without a charset, else a
   * Properties object. Properties refuses null values, so a null user or
   * password with a charset throws.
   */
  function FactoryFor(url: Option<string>, user: Option<string>, pwd: Option<string>,
                      charSet: Option<string>): (r: Result<ConnectionFactory>)
    ensures charSet.None? ==> r == Ok(UrlUserPassword(url, user, pwd))
    ensures charSet.Some? ==> (r.Err? <==> user.None? || pwd.None?)
    ensures r.Err? ==> r.error == NullPointer
    ensures charSet.Some? && r.Ok? ==>
              r.value.UrlProperties? && r.value.props.Keys == {"user", "password", "charset"} &&
              r.value.props["user"] == user.value && r.value.props["password"] == pwd.value &&
              r.value.props["charset"] == charSet.value
  {
    if charSet.None? then Ok(UrlUserPassword(url, user, pwd))
    else if user.None? || pwd.None? then Err(NullPointer)
    else Ok(UrlProperties(url, map["user" := user.value, "password" := pwd.value, "charset" := charSet.value]))
  }

  /**
   * init / startDbcp. `driverLoadable` says whether Class.forName finds the
   * driver class. A configured name returns its pool and changes nothing.
   */
  function Init(st: Dbcp, name: string, driver: string, url: Option<string>, user: Option<string>,
                pwd: Option<string>, charSet: Option<string>, maxActive: int,
                validationQuery: Option<string>, driverLoadable: bool): (out: (Dbcp, Result<Pool>))
    requires Valid(st)
    ensures Valid(out.0)
    ensures name in st.configured ==> out == (st, Ok(st.pools[name]))
    ensures out.1.Err? ==> out.0 == st
    ensures name !in st.configured && !driverLoadable ==> out.1 == Err(DriverNotFound(driver))
    ensures name !in st.configured && out.1.Ok? ==>
              out.0.configured == st.configured + {name} &&
              out.0.pools == st.pools[name := out.1.value] &&
              out.1.value.idle == 0 &&
              out.1.value.config.evictionRunMillis == EVICTION_RUN_MILLIS &&
              out.1.value.config.maxWaitMillis == MAX_WAIT_MILLIS &&
              out.1.value.config.minEvictableIdleMillis == MIN_EVICTABLE_IDLE_MILLIS &&
              out.1.value.config.testOnBorrow &&
              out.1.value.config.maxActive == maxActive &&
              out.1.value.config.validationQuery == validationQuery &&
              Ok(out.1.value.config.factory) == FactoryFor(url, user, pwd, charSet)
  {
    if name in st.configured then (st, Ok(st.pools[name]))
    else if !driverLoadable then (st, Err(DriverNotFound(driver)))
    else
      match FactoryFor(url, user, pwd, charSet)
      case Err(e) => (st, Err(e))
      case Ok(factory) =>
        var pool := Pool(PoolConfig(EVICTION_RUN_MILLIS, MAX_WAIT_MILLIS, MIN_EVICTABLE_IDLE_MILLIS, true,
                                    maxActive, validationQuery, factory), 0);
        (Dbcp(st.configured + {name}, st.pools[name := pool]), Ok(pool))
  }

  /** getConnection: borrow from the named pool, which must have been configured. */
  function GetConnection(st: Dbcp, name: string): (r: Result<Pool>)
    requires Valid(st)
    ensures r.Err? <==> name !in st.configured
    ensures r.Err? ==> r.error == PoolNotConfigured(name)
    ensures r.Ok? ==> name in st.pools && r.value == st.pools[name]
  {
    if name !in st.configured then Err(PoolNotConfigured(name)) else Ok(st.pools[name])
  }

  /** clearConnection: drop the idle connections of a configured pool; an unknown name is ignored. */
  function ClearConnection(st: Dbcp, name: string): (out: Dbcp)
    requires Valid(st)
    ensures Valid(out)
    ensures out.configured == st.configured && out.pools.Keys == st.pools.Keys
    ensures name !in st.configured ==> out == st
    ensures name in st.configured ==> out.pools[name] == st.pools[name].(idle := 0)
    ensures forall n :: n in st.pools && n != name ==> out.pools[n] == st.pools[n]
  {
    if name !in st.configured then st
    else st.(pools := st.pools[name := st.pools[name].(idle := 0)])
  }

  /**
   * Initialising a name twice: the second call returns the first call's pool
   * and changes nothing, whatever its own arguments.
   */
  lemma InitIsIdempotent(st: Dbcp, name: string,
                         d1: string, u1: Option<string>, us1: Option<string>, p1: Option<string>, c1: Option<string>,
                         m1: int, v1: Option<string>,
                         d2: string, u2: Option<string>, us2: Option<string>, p2: Option<string>, c2: Option<string>,
                         m2: int, v2: Option<string>, loadable2: bool)
    requires Valid(st)
    requires Init(st, name, d1, u1, us1, p1, c1, m1, v1, true).1.Ok?
    ensures var first := Init(st, name, d1, u1, us1, p1, c1, m1, v1, true);
            Init(first.0, name, d2, u2, us2, p2, c2, m2, v2, loadable2) == (first.0, first.1)
  {
  }

  /** After a successful init, borrowing from that name reaches the pool init returned. */
  lemma InitThenBorrow(st: Dbcp, name: string, d: string, u: Option<string>, us: Option<string>,
                       p: Option<string>, c: Option<string>, m: int, v: Option<string>, loadable: bool)
    requires Valid(st)
    requires Init(st, name, d, u, us, p, c, m, v, loadable).1.Ok?
    ensures var out := Init(st, name, d, u, us, p, c, m, v, loadable);
            GetConnection(out.0, name) == out.1
  {
  }

  /** Clearing a pool does not unconfigure it: borrowing still succeeds, from the same configuration. */
  lemma ClearKeepsPoolUsable(st: Dbcp, name: string)
    requires Valid(st) && name in st.configured
    ensures GetConnection(ClearConnection(st, name), name).Ok?
    ensures GetConnection(ClearConnection(st, name), name).value.config == st.pools[name].config
  {
  }
}
