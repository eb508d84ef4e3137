/** Database connection settings and the MySQL data source name built from them. */
module Db {

  datatype Config = Config(User: string, Password: string, Host: string, Port: string, DBName: string)

  /** The connection options every DSN carries. */
  const DsnOptions: string := "?charset=utf8mb4&parseTime=True&loc=Local"

  /** The settings used when none are given. */
  function DefaultConfig(): (c: Config)
    ensures Unambiguous(c)
  {
    Config("root", "password", "127.0.0.1", "3306", "codex")
  }

  /** `user:password@tcp(host:port)/dbname` followed by the options, with the fields inserted verbatim. */
  function DSN(c: Config): (dsn: string)
    ensures |dsn| == |c.User| + |c.Password| + |c.Host| + |c.Port| + |c.DBName| + 9 + |DsnOptions|
  {
    c.User + ":" + c.Password + "@tcp(" + c.Host + ":" + c.Port + ")/" + c.DBName + DsnOptions
  }

  /** The DSN of the default settings is the local `codex` database as `root`. */
  lemma DefaultDSN()
    ensures DefaultConfig().User == "root" && DefaultConfig().Password == "password"
    ensures DefaultConfig().Host == "127.0.0.1" && DefaultConfig().Port == "3306" && DefaultConfig().DBName == "codex"
    ensures DSN(DefaultConfig()) == "root:password@tcp(127.0.0.1:3306)/codex" + DsnOptions
  {
  }

  /** Every DSN starts with the user and a ':' and ends with the options. */
  lemma DsnFrame(c: Config)
    ensures |DSN(c)| >= |c.User| + 1 + |DsnOptions|
    ensures DSN(c)[..|c.User|] == c.User && DSN(c)[|c.User|] == ':'
    ensures DSN(c)[|DSN(c)| - |DsnOptions|..] == DsnOptions
  {
    var rest := c.Password + "@tcp(" + c.Host + ":" + c.Port + ")/" + c.DBName;
    assert DSN(c) == c.User + [':'] + rest + DsnOptions;
  }

  /** Fields that do not contain the separator that follows them in the DSN. */
  predicate Unambiguous(c: Config) {
    ':' !in c.User && '@' !in c.Password && ':' !in c.Host && ')' !in c.Port && '?' !in c.DBName
  }

  /** In `x + [sep] + y` with `sep` not in `x`, the first `sep` is at index `|x|`. */
  lemma FirstSeparator(x: string, sep: char, y: string)
    requires sep !in x
    ensures (x + [sep] + y)[|x|] == sep
    ensures forall k :: 0 <= k < |x| ==> (x + [sep] + y)[k] != sep
  {
    forall k | 0 <= k < |x|
      ensures (x + [sep] + y)[k] != sep
    {
      assert (x + [sep] + y)[k] == x[k];
    }
  }

  /** If `x` and `x2` both lack `sep`, then `x + [sep] + y == x2 + [sep] + y2` splits the same way. */
  lemma {:induction false} CutAt(x: string, sep: char, y: string, x2: string, y2: string)
    requires sep !in x && sep !in x2
    requires x + [sep] + y == x2 + [sep] + y2
    ensures x == x2 && y == y2
  {
    var s := x + [sep] + y;
    FirstSeparator(x, sep, y);
    FirstSeparator(x2, sep, y2);
    assert |x| == |x2|;
    assert x == s[..|x|] && x2 == s[..|x2|];
    assert y == s[|x| + 1..] && y2 == s[|x2| + 1..];
  }

  /** Dropping a common prefix. */
  lemma DropPrefix(p: string, y: string, y2: string)
    requires p + y == p + y2
    ensures y == y2
  {
    assert y == (p + y)[|p|..] && y2 == (p + y2)[|p|..];
  }

  // The DSN read from the left: each tail starts just after the previous field's separator.
  function TailAfterPort(c: Config): (t: string) { "/" + c.DBName + DsnOptions }
  function TailAfterHost(c: Config): (t: string) { c.Port + ")" + TailAfterPort(c) }
  function TailAfterTcp(c: Config): (t: string) { c.Host + ":" + TailAfterHost(c) }
  function TailAfterUser(c: Config): (t: string) { c.Password + "@" + ("tcp(" + TailAfterTcp(c)) }

  /** The DSN read from the left: the user, a ':' and the rest. */
  lemma DsnLayers(c: Config)
    ensures DSN(c) == c.User + [':'] + TailAfterUser(c)
    ensures TailAfterUser(c) == c.Password + ['@'] + ("tcp(" + TailAfterTcp(c))
    ensures TailAfterTcp(c) == c.Host + [':'] + TailAfterHost(c)
    ensures TailAfterHost(c) == c.Port + [')'] + TailAfterPort(c)
    ensures TailAfterPort(c) == "/" + (c.DBName + ['?'] + DsnOptions[1..])
  {
    InnerLayers(c);
    var t := TailAfterUser(c);
    var dsn := c.User + ":" + c.Password + "@tcp(" + c.Host + ":" + c.Port + ")/" + c.DBName + DsnOptions;
    assert dsn == c.User + [':'] + t;
  }

  /** The layers after the user. */
  lemma InnerLayers(c: Config)
    ensures TailAfterUser(c) == c.Password + ['@'] + ("tcp(" + TailAfterTcp(c))
    ensures TailAfterTcp(c) == c.Host + [':'] + TailAfterHost(c)
    ensures TailAfterHost(c) == c.Port + [')'] + TailAfterPort(c)
    ensures TailAfterPort(c) == "/" + (c.DBName + ['?'] + DsnOptions[1..])
  {
    var opts := DsnOptions;
    assert opts == ['?'] + opts[1..];
    assert "/" + c.DBName + opts == "/" + (c.DBName + ['?'] + opts[1..]);
  }

  /** Settings whose fields lack their following separators are recovered from their DSN: the DSN is injective on them. */
  lemma {:induction false} DsnDeterminesConfig(a: Config, b: Config)
    requires Unambiguous(a) && Unambiguous(b)
    requires DSN(a) == DSN(b)
    ensures a == b
  {
    DsnLayers(a);
    DsnLayers(b);
    CutAt(a.User, ':', TailAfterUser(a), b.User, TailAfterUser(b));
    CutAt(a.Password, '@', "tcp(" + TailAfterTcp(a), b.Password, "tcp(" + TailAfterTcp(b));
    DropPrefix("tcp(", TailAfterTcp(a), TailAfterTcp(b));
    CutAt(a.Host, ':', TailAfterHost(a), b.Host, TailAfterHost(b));
    CutAt(a.Port, ')', TailAfterPort(a), b.Port, TailAfterPort(b));
    DropPrefix("/", a.DBName + ['?'] + DsnOptions[1..], b.DBName + ['?'] + DsnOptions[1..]);
    CutAt(a.DBName, '?', DsnOptions[1..], b.DBName, DsnOptions[1..]);
  }

  /** Without that condition two different settings can share a DSN: a ':' in the user reads as the password's start. */
  lemma DsnAmbiguousExample()
    ensures Config("a:b", "c", "h", "1", "d") != Config("a", "b:c", "h", "1", "d")
    ensures DSN(Config("a:b", "c", "h", "1", "d")) == DSN(Config("a", "b:c", "h", "1", "d"))
  {
  }
}
