/**
 * The database settings read at start-up and the ODBC connection string
 * get_db_connection hands to the driver.
 */
module Connection {
  import opened PyText

  /** DB_DRIVER, DB_SERVER, DB_NAME, DB_USER, DB_PASSWORD and DB_CONN_STRING. */
  datatype Settings = Settings(
    driver: string,
    server: string,
    database: string,
    user: string,
    password: string,
    connString: string)

  /** `os.environ.get(name, default)`. */
  function Setting(env: map<string, string>, name: string, default: string): string {
    if name in env then env[name] else default
  }

  /** The settings as the module reads them from the environment, with their defaults. */
  function SettingsFrom(env: map<string, string>): Settings {
    Settings(
      Setting(env, "DB_DRIVER", "{ODBC Driver 17 for SQL Server}"),
      Setting(env, "DB_SERVER", "localhost\\SQLEXPRESS"),
      Setting(env, "DB_NAME", "evsuDB"),
      Setting(env, "DB_USER", ""),
      Setting(env, "DB_PASSWORD", ""),
      Setting(env, "DB_CONN_STRING", ""))
  }

  /** Whether the user name and password are both non-empty, so SQL Server authentication is used. */
  predicate HasCredentials(s: Settings) {
    s.user != "" && s.password != ""
  }

  /** The string get_db_connection passes to pyodbc.connect. */
  function ConnectionString(s: Settings): string {
    if s.connString != "" then s.connString
    else if HasCredentials(s) then
      "DRIVER=" + s.driver + ";" + "SERVER=" + s.server + ";" + "DATABASE=" + s.database + ";"
        + "UID=" + s.user + ";" + "PWD=" + s.password
    else
      "DRIVER=" + s.driver + ";" + "SERVER=" + s.server + ";" + "DATABASE=" + s.database + ";"
        + "Trusted_Connection=yes"
  }

  /** The key=value attributes of a built connection string, in order. */
  function Attributes(s: Settings): (attrs: seq<string>)
    ensures |attrs| >= 4
  {
    ["DRIVER=" + s.driver, "SERVER=" + s.server, "DATABASE=" + s.database]
      + (if HasCredentials(s) then ["UID=" + s.user, "PWD=" + s.password] else ["Trusted_Connection=yes"])
  }

  /** No setting that goes into a built string contains the attribute separator. */
  predicate SeparatorFree(s: Settings) {
    ';' !in s.driver && ';' !in s.server && ';' !in s.database && ';' !in s.user && ';' !in s.password
  }

  lemma AttributeNamesSeparatorFree()
    ensures ';' !in "DRIVER=" && ';' !in "SERVER=" && ';' !in "DATABASE=" && ';' !in "UID=" && ';' !in "PWD="
    ensures ';' !in "Trusted_Connection=yes"
  {
  }

  lemma NoSeparatorInConcat(a: string, b: string)
    requires ';' !in a && ';' !in b
    ensures ';' !in a + b
  {
  }

  lemma JoinFour(a: string, b: string, c: string, d: string)
    ensures Join([a, b, c, d], ";") == a + ";" + b + ";" + c + ";" + d
  {
    assert [a, b, c, d][1..] == [b, c, d];
    assert [b, c, d][1..] == [c, d];
    assert [c, d][1..] == [d];
    assert Join([c, d], ";") == c + ";" + d;
    assert Join([b, c, d], ";") == b + ";" + (c + ";" + d);
    assert b + ";" + (c + ";" + d) == b + ";" + c + ";" + d;
    assert a + ";" + (b + ";" + c + ";" + d) == a + ";" + b + ";" + c + ";" + d;
  }

  lemma JoinFive(a: string, b: string, c: string, d: string, e: string)
    ensures Join([a, b, c, d, e], ";") == a + ";" + b + ";" + c + ";" + d + ";" + e
  {
    assert [a, b, c, d, e][1..] == [b, c, d, e];
    JoinFour(b, c, d, e);
    assert a + ";" + (b + ";" + c + ";" + d + ";" + e) == a + ";" + b + ";" + c + ";" + d + ";" + e;
  }

  lemma BuiltWithCredentials(s: Settings)
    requires s.connString == "" && HasCredentials(s)
    ensures ConnectionString(s) == Join(Attributes(s), ";")
  {
    var driver, server, database := "DRIVER=" + s.driver, "SERVER=" + s.server, "DATABASE=" + s.database;
    var user, password := "UID=" + s.user, "PWD=" + s.password;
    assert Attributes(s) == [driver, server, database, user, password];
    JoinFive(driver, server, database, user, password);
  }

  lemma BuiltTrusted(s: Settings)
    requires s.connString == "" && !HasCredentials(s)
    ensures ConnectionString(s) == Join(Attributes(s), ";")
  {
    var driver, server, database := "DRIVER=" + s.driver, "SERVER=" + s.server, "DATABASE=" + s.database;
    assert Attributes(s) == [driver, server, database, "Trusted_Connection=yes"];
    JoinFour(driver, server, database, "Trusted_Connection=yes");
  }

  /** Without DB_CONN_STRING the built string is its attributes joined with ';'. */
  lemma BuiltIsJoin(s: Settings)
    requires s.connString == ""
    ensures ConnectionString(s) == Join(Attributes(s), ";")
  {
    if HasCredentials(s) {
      BuiltWithCredentials(s);
    } else {
      BuiltTrusted(s);
    }
  }

  /**
   * An explicit DB_CONN_STRING is used verbatim; without it the string is built,
   * with UID and PWD when both are set and Trusted_Connection=yes otherwise, and
   * splitting it on ';' gives back exactly those attributes in order.
   */
  lemma ConnectionPrecedence(s: Settings)
    requires SeparatorFree(s)
    ensures s.connString != "" ==> ConnectionString(s) == s.connString
    ensures s.connString == "" ==> Split(ConnectionString(s), ';') == Attributes(s)
    ensures s.connString == "" && HasCredentials(s) ==> Attributes(s)[3..] == ["UID=" + s.user, "PWD=" + s.password]
    ensures s.connString == "" && !HasCredentials(s) ==> Attributes(s)[3..] == ["Trusted_Connection=yes"]
  {
    if s.connString == "" {
      var attrs := Attributes(s);
      AttributeNamesSeparatorFree();
      NoSeparatorInConcat("DRIVER=", s.driver);
      NoSeparatorInConcat("SERVER=", s.server);
      NoSeparatorInConcat("DATABASE=", s.database);
      NoSeparatorInConcat("UID=", s.user);
      NoSeparatorInConcat("PWD=", s.password);
      JoinThenSplit(attrs, ';');
      BuiltIsJoin(s);
    }
  }

  /** With no settings in the environment the app connects to the local SQLEXPRESS instance with Windows authentication. */
  lemma DefaultConnection()
    ensures SettingsFrom(map[]) == Settings("{ODBC Driver 17 for SQL Server}", "localhost\\SQLEXPRESS", "evsuDB", "", "", "")
    ensures ConnectionString(SettingsFrom(map[])) == Join(Attributes(SettingsFrom(map[])), ";")
    ensures Attributes(SettingsFrom(map[]))[3..] == ["Trusted_Connection=yes"]
  {
    BuiltIsJoin(SettingsFrom(map[]));
  }
}
