/** The table from JDBC driver names to the database platform names the
    query layer understands. */
module Platforms {
  import opened Wrappers

  /** The table the constructor builds, one put per known driver. */
  function StandardDrivers(): (t: map<string, string>)
    ensures t.Keys == {"PostgreSQL JDBC Driver", "MySQL Connector Java", "MySQL-AB JDBC Driver",
                       "MySQL Connector/J", "Apache Derby Network Client JDBC Driver"}
  {
    map["PostgreSQL JDBC Driver" := "PostgreSql",
        "MySQL Connector Java" := "MySQL",
        "MySQL-AB JDBC Driver" := "MySQL",
        "MySQL Connector/J" := "MySQL",
        "Apache Derby Network Client JDBC Driver" := "Derby"]
  }

  class PlatformUtils {
    var jdbcDriver: map<string, string>

    /** The table is only ever filled by the constructor. */
    predicate Valid()
      reads this
    {
      jdbcDriver == StandardDrivers()
    }

    constructor ()
      ensures Valid()
    {
      jdbcDriver := map[];
      new;
      jdbcDriver := jdbcDriver["PostgreSQL JDBC Driver" := "PostgreSql"];
      jdbcDriver := jdbcDriver["MySQL Connector Java" := "MySQL"];
      jdbcDriver := jdbcDriver["MySQL-AB JDBC Driver" := "MySQL"];
      jdbcDriver := jdbcDriver["MySQL Connector/J" := "MySQL"];
      jdbcDriver := jdbcDriver["Apache Derby Network Client JDBC Driver" := "Derby"];
    }

    /** determineDatabaseType(String): the platform of a known driver name,
        null for any other name, including null. A function: the lookup
        cannot change the table. */
    function DetermineDatabaseType(driverName: Option<string>): (r: Option<string>)
      reads this
      ensures r.Some? <==> driverName.Some? && driverName.value in jdbcDriver
      ensures r.Some? ==> r.value == jdbcDriver[driverName.value]
    {
      if driverName.Some? && driverName.value in jdbcDriver then Some(jdbcDriver[driverName.value]) else None
    }
  }

  /** The known drivers and the platform each one names. */
  lemma KnownDrivers(p: PlatformUtils)
    requires p.Valid()
    ensures p.DetermineDatabaseType(Some("PostgreSQL JDBC Driver")) == Some("PostgreSql")
    ensures p.DetermineDatabaseType(Some("MySQL Connector Java")) == Some("MySQL")
    ensures p.DetermineDatabaseType(Some("MySQL-AB JDBC Driver")) == Some("MySQL")
    ensures p.DetermineDatabaseType(Some("MySQL Connector/J")) == Some("MySQL")
    ensures p.DetermineDatabaseType(Some("Apache Derby Network Client JDBC Driver")) == Some("Derby")
  {
  }

  /** Exactly the three MySQL driver names give "MySQL"; any name outside the
      table gives null; every answer is one of the three platforms. */
  lemma PlatformOfDriver(p: PlatformUtils, name: Option<string>)
    requires p.Valid()
    ensures p.DetermineDatabaseType(name) == Some("MySQL") <==>
              name.Some? && name.value in {"MySQL Connector Java", "MySQL-AB JDBC Driver", "MySQL Connector/J"}
    ensures name.None? || name.value !in StandardDrivers() ==> p.DetermineDatabaseType(name).None?
    ensures p.DetermineDatabaseType(name).Some? ==>
              p.DetermineDatabaseType(name).value in {"PostgreSql", "MySQL", "Derby"}
  {
  }
}
