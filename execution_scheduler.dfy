/**
 * The Quartz configuration that ExecutionSchedulerImpl derives from the Ambari
 * server configuration: the JDBC delegate class and validation query chosen by
 * the kind of database the JDBC URL names, and the property table handed to
 * Quartz's StdSchedulerFactory.
 */
module ExecutionScheduler {
  import opened Text

  const DefaultSchedulerName := "ExecutionScheduler"

  const StdJdbcDelegate := "org.quartz.impl.jdbcjobstore.StdJDBCDelegate"
  const PostgreSqlDelegate := "org.quartz.impl.jdbcjobstore.PostgreSQLDelegate"
  const OracleDelegate := "org.quartz.impl.jdbcjobstore.oracle.OracleDelegate"

  const DefaultValidationQuery := "select 0"
  const OracleValidationQuery := "select 0 from dual"

  /** The database names looked for in the JDBC URL, in this order. */
  const PostgresDbName := "postgres"
  const OracleDbName := "oracle"

  /** getQuartzDbDelegateClassAndValidationQuery's two-element result. */
  datatype DbSettings = DbSettings(delegateClass: string, validationQuery: string)

  /** getQuartzDbDelegateClassAndValidationQuery: PostgreSQL and Oracle get their
      own delegates (Oracle also its own validation query); every other database
      gets the standard JDBC delegate. */
  function QuartzDbDelegateClassAndValidationQuery(databaseUrl: string): (r: DbSettings)
    ensures r.validationQuery == OracleValidationQuery <==> r.delegateClass == OracleDelegate
    ensures r.delegateClass == PostgreSqlDelegate <==> Contains(databaseUrl, PostgresDbName)
    ensures r.delegateClass == OracleDelegate
        <==> !Contains(databaseUrl, PostgresDbName) && Contains(databaseUrl, OracleDbName)
    ensures r.delegateClass == StdJdbcDelegate
        <==> !Contains(databaseUrl, PostgresDbName) && !Contains(databaseUrl, OracleDbName)
  {
    if Contains(databaseUrl, PostgresDbName) then DbSettings(PostgreSqlDelegate, DefaultValidationQuery)
    else if Contains(databaseUrl, OracleDbName) then DbSettings(OracleDelegate, OracleValidationQuery)
    else DbSettings(StdJdbcDelegate, DefaultValidationQuery)
  }

  /** The configuration values the property table is built from, as the text
      Configuration returns for them. */
  datatype SchedulerConfig = SchedulerConfig(
    threads: string,
    clustered: string,
    connections: string,
    databaseDriver: string,
    databaseUrl: string,
    databaseUser: string)

  const InstanceNameKey := "org.quartz.scheduler.instanceName"
  const ThreadPoolClassKey := "org.quartz.threadPool.class"
  const ThreadCountKey := "org.quartz.threadPool.threadCount"
  const IsClusteredKey := "org.quartz.jobStore.isClustered"
  const DelegateClassKey := "org.quartz.jobStore.driverDelegateClass"
  const DriverKey := "org.quartz.dataSource.myDS.driver"
  const UrlKey := "org.quartz.dataSource.myDS.URL"
  const UserKey := "org.quartz.dataSource.myDS.user"
  const MaxConnectionsKey := "org.quartz.dataSource.myDS.maxConnections"
  const ValidationQueryKey := "org.quartz.dataSource.myDS.validationQuery"

  const SimpleThreadPool := "org.quartz.simpl.SimpleThreadPool"

  /** The keys every property table holds. */
  function PropertyKeys(): set<string> {
    {InstanceNameKey, ThreadPoolClassKey, ThreadCountKey, IsClusteredKey, DelegateClassKey,
     DriverKey, UrlKey, UserKey, MaxConnectionsKey, ValidationQueryKey}
  }

  /** getQuartzSchedulerProperties. */
  function QuartzSchedulerProperties(cfg: SchedulerConfig): (props: map<string, string>)
    ensures props.Keys == PropertyKeys()
  {
    var db := QuartzDbDelegateClassAndValidationQuery(cfg.databaseUrl);
    map[InstanceNameKey := DefaultSchedulerName,
        ThreadPoolClassKey := SimpleThreadPool,
        ThreadCountKey := cfg.threads,
        IsClusteredKey := cfg.clustered,
        DelegateClassKey := db.delegateClass,
        DriverKey := cfg.databaseDriver,
        UrlKey := cfg.databaseUrl,
        UserKey := cfg.databaseUser,
        MaxConnectionsKey := cfg.connections,
        ValidationQueryKey := db.validationQuery]
  }

  // ---------------------------------------------------------------------------
  // The delegate choice.

  /** The validation query follows from the delegate class alone. */
  lemma ValidationQueryFollowsDelegate(databaseUrl: string)
    ensures var r := QuartzDbDelegateClassAndValidationQuery(databaseUrl);
      r.validationQuery == (if r.delegateClass == OracleDelegate then OracleValidationQuery else DefaultValidationQuery)
  {
  }

  /** Every URL gets one of exactly three delegate and query pairs. */
  lemma ThreeDelegates(databaseUrl: string)
    ensures QuartzDbDelegateClassAndValidationQuery(databaseUrl)
        in {DbSettings(PostgreSqlDelegate, DefaultValidationQuery),
            DbSettings(OracleDelegate, OracleValidationQuery),
            DbSettings(StdJdbcDelegate, DefaultValidationQuery)}
  {
  }

  /** Only the database name matters: whatever surrounds it in the URL, a URL
      that names postgres selects the PostgreSQL delegate, and one that names
      oracle but not postgres selects the Oracle delegate. */
  lemma DatabaseNameDecides(before: string, after: string)
    ensures QuartzDbDelegateClassAndValidationQuery(before + PostgresDbName + after)
        == DbSettings(PostgreSqlDelegate, DefaultValidationQuery)
    ensures !Contains(before + OracleDbName + after, PostgresDbName) ==>
      QuartzDbDelegateClassAndValidationQuery(before + OracleDbName + after)
        == DbSettings(OracleDelegate, OracleValidationQuery)
  {
    ContainsInfix(before, PostgresDbName, after);
    ContainsInfix(before, OracleDbName, after);
  }

  /** The search covers the whole URL, host name included: a MySQL URL whose
      host is called postgres-db selects the PostgreSQL delegate. */
  lemma HostNamedPostgres()
    ensures QuartzDbDelegateClassAndValidationQuery("jdbc:mysql://postgres-db:3306/ambari")
        == DbSettings(PostgreSqlDelegate, DefaultValidationQuery)
  {
    assert "jdbc:mysql://postgres-db:3306/ambari" == "jdbc:mysql://" + PostgresDbName + "-db:3306/ambari";
    DatabaseNameDecides("jdbc:mysql://", "-db:3306/ambari");
  }

  // ---------------------------------------------------------------------------
  // The property table.

  /** The settings copied from the configuration, the delegate pair for its URL,
      and the two fixed entries. */
  lemma PropertiesReflectConfig(cfg: SchedulerConfig)
    ensures var props := QuartzSchedulerProperties(cfg);
      && props[ThreadCountKey] == cfg.threads
      && props[MaxConnectionsKey] == cfg.connections
      && props[IsClusteredKey] == cfg.clustered
      && props[DriverKey] == cfg.databaseDriver
      && props[UrlKey] == cfg.databaseUrl
      && props[UserKey] == cfg.databaseUser
    ensures var props := QuartzSchedulerProperties(cfg);
      DbSettings(props[DelegateClassKey], props[ValidationQueryKey])
        == QuartzDbDelegateClassAndValidationQuery(props[UrlKey])
    ensures var props := QuartzSchedulerProperties(cfg);
      props[InstanceNameKey] == DefaultSchedulerName && props[ThreadPoolClassKey] == SimpleThreadPool
  {
  }

  /** Each entry depends on its own setting only: where two tables differ, the
      configurations differ in the setting that entry is copied or derived from. */
  lemma EntriesAreIndependent(a: SchedulerConfig, b: SchedulerConfig, k: string)
    requires k in PropertyKeys()
    requires QuartzSchedulerProperties(a)[k] != QuartzSchedulerProperties(b)[k]
    ensures k == ThreadCountKey ==> a.threads != b.threads
    ensures k == MaxConnectionsKey ==> a.connections != b.connections
    ensures k == IsClusteredKey ==> a.clustered != b.clustered
    ensures k == DriverKey ==> a.databaseDriver != b.databaseDriver
    ensures k == UserKey ==> a.databaseUser != b.databaseUser
    ensures k in {UrlKey, DelegateClassKey, ValidationQueryKey} ==> a.databaseUrl != b.databaseUrl
    ensures k != InstanceNameKey && k != ThreadPoolClassKey
  {
  }

  // ---------------------------------------------------------------------------
  // The cases ExecutionSchedulerTest pins down.

  lemma PostgreSqlUrl()
    ensures QuartzDbDelegateClassAndValidationQuery("jdbc:postgresql://host:port/dbname")
        == DbSettings(PostgreSqlDelegate, DefaultValidationQuery)
  {
    assert "jdbc:postgresql://host:port/dbname" == "jdbc:" + PostgresDbName + "ql://host:port/dbname";
    DatabaseNameDecides("jdbc:", "ql://host:port/dbname");
  }

  /** A URL without the letter `g` cannot name postgres. */
  lemma NamesNoPostgres(url: string)
    requires 'g' !in url
    ensures !Contains(url, PostgresDbName)
  {
    MissingCharacter(url, PostgresDbName, 4);
  }

  lemma MySqlUrlNamesNoOracle()
    ensures !Contains("jdbc:mysql://host:port/dbname", "oracle")
  {
    MissingPair("jdbc:mysql://host:port/dbname", "oracle", 1);
  }

  lemma MySqlUrl()
    ensures QuartzDbDelegateClassAndValidationQuery("jdbc:mysql://host:port/dbname")
        == DbSettings(StdJdbcDelegate, DefaultValidationQuery)
  {
    NamesNoPostgres("jdbc:mysql://host:port/dbname");
    MySqlUrlNamesNoOracle();
  }

  lemma OracleUrlNamesOracle()
    ensures Contains("jdbc:oracle:thin://host:port/dbname", "oracle")
  {
    assert "jdbc:oracle:thin://host:port/dbname" == "jdbc:" + "oracle" + ":thin://host:port/dbname";
    ContainsInfix("jdbc:", "oracle", ":thin://host:port/dbname");
  }

  lemma OracleUrl()
    ensures QuartzDbDelegateClassAndValidationQuery("jdbc:oracle:thin://host:port/dbname")
        == DbSettings(OracleDelegate, OracleValidationQuery)
  {
    NamesNoPostgres("jdbc:oracle:thin://host:port/dbname");
    OracleUrlNamesOracle();
  }

  /** The configuration of the test's setup. */
  function SetupConfig(): SchedulerConfig {
    SchedulerConfig("2", "false", "2", "db.driver", "jdbc:postgresql://localhost/", "user")
  }

  lemma SetupProperties()
    ensures var props := QuartzSchedulerProperties(SetupConfig());
      && props[ThreadCountKey] == "2"
      && props[MaxConnectionsKey] == "2"
      && props[IsClusteredKey] == "false"
      && props[DelegateClassKey] == PostgreSqlDelegate
      && props[ValidationQueryKey] == DefaultValidationQuery
      && props[InstanceNameKey] == DefaultSchedulerName
      && props[ThreadPoolClassKey] == SimpleThreadPool
  {
    assert "jdbc:postgresql://localhost/" == "jdbc:" + PostgresDbName + "ql://localhost/";
    DatabaseNameDecides("jdbc:", "ql://localhost/");
    PropertiesReflectConfig(SetupConfig());
  }
}
