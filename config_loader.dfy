/**
 * ServerConfigLoader: when the class is initialised, servers_config.txt is
 * read line by line into the main server's host and port and the ordered
 * list of sub-servers (the storage nodes). A file that cannot be read, or a
 * port that does not parse, replaces everything with the built-in defaults.
 */
module ServerConfig {
  import opened Wrappers
  import opened JavaString

  const CONFIG_FILE: string := "servers_config.txt"
  const SERVER_DIRECTORY: string := "server_directory"
  const CHUNK_SIZE: nat := 1024

  const DEFAULT_HOST: string := "127.0.0.1"
  const DEFAULT_MAIN_PORT: int := 12345

  datatype SubServerInfo = SubServerInfo(host: string, port: int)

  /**
   * The configuration file as BufferedReader.readLine delivers it: the lines
   * read, and whether a read fails after them with an IOException. A file
   * that cannot be opened is one with no lines whose first read fails.
   */
  datatype ConfigFile = ConfigFile(lines: seq<string>, readFails: bool)

  /** The loader's static fields: the main host (null until set), the main port, the sub-servers in order. */
  datatype Config = Config(mainHost: Option<string>, mainPort: int, subServers: seq<SubServerInfo>)

  /** The fields before loadConfiguration runs. */
  function Initial(): Config {
    Config(None, 0, [])
  }

  /** setDefaultValues: the main server on 12345 and three sub-servers on 12346, 12347 and 12348, all local. */
  function Defaults(): Config {
    Config(Some(DEFAULT_HOST), DEFAULT_MAIN_PORT,
           [SubServerInfo(DEFAULT_HOST, 12346), SubServerInfo(DEFAULT_HOST, 12347), SubServerInfo(DEFAULT_HOST, 12348)])
  }

  /** A blank line, or one whose very first character is '#'. */
  predicate Ignored(line: string) {
    Trim(line) == [] || (|line| > 0 && line[0] == '#')
  }

  /** What one line contributes. BadPort is a three-part line whose port Integer.parseInt rejects, whatever its type. */
  datatype Entry = NoEntry | BadPort | MainEntry(host: string, port: int) | SubEntry(host: string, port: int)

  function Classify(line: string): Entry {
    if Ignored(line) then NoEntry else PartsEntry(Split(Trim(line), ':'))
  }

  /** The entry of a line that is read, from the parts of the trimmed line split at ':'. */
  function PartsEntry(parts: seq<string>): Entry {
    if |parts| != 3 then NoEntry
    else
      match ParseInt(parts[2])
      case None => BadPort
      case Some(port) =>
        if parts[0] == "main_server" then MainEntry(parts[1], port)
        else if parts[0] == "sub_server" then SubEntry(parts[1], port)
        else NoEntry
  }

  function Apply(c: Config, e: Entry): Config {
    match e
    case MainEntry(host, port) => c.(mainHost := Some(host), mainPort := port)
    case SubEntry(host, port) => c.(subServers := c.subServers + [SubServerInfo(host, port)])
    case _ => c
  }

  /** The entry of every line, in file order. */
  function Entries(lines: seq<string>): (es: seq<Entry>)
    ensures |es| == |lines|
    ensures forall k :: 0 <= k < |lines| ==> es[k] == Classify(lines[k])
  {
    seq(|lines|, k requires 0 <= k < |lines| => Classify(lines[k]))
  }

  /** The read loop over the entries of the lines from the fields `start`; None once a line throws NumberFormatException. */
  function ParseEntries(start: Config, es: seq<Entry>): Option<Config>
    decreases |es|
  {
    if es == [] then Some(start)
    else
      match ParseEntries(start, es[..|es| - 1])
      case None => None
      case Some(c) =>
        var e := es[|es| - 1];
        if e.BadPort? then None else Some(Apply(c, e))
  }

  /** loadConfiguration: the parsed fields, or the defaults when an exception was caught. */
  function Load(start: Config, file: ConfigFile): Config {
    match ParseEntries(start, Entries(file.lines))
    case Some(c) => if file.readFails then Defaults() else c
    case None => Defaults()
  }

  // ---------------------------------------------------------------- reference views

  /** The sub-servers a file's entries name, in file order. */
  function SubEntries(es: seq<Entry>): seq<SubServerInfo>
    decreases |es|
  {
    if es == [] then []
    else
      var first := match es[0]
        case SubEntry(host, port) => [SubServerInfo(host, port)]
        case _ => [];
      first + SubEntries(es[1..])
  }

  /** Entry k is a main_server line and no later one is. */
  predicate LastMainLine(es: seq<Entry>, k: int) {
    && 0 <= k < |es|
    && es[k].MainEntry?
    && forall j :: k < j < |es| ==> !es[j].MainEntry?
  }

  predicate NoBadPort(es: seq<Entry>) {
    forall k :: 0 <= k < |es| ==> !es[k].BadPort?
  }

  // ---------------------------------------------------------------- properties

  /** The read loop gets through the file exactly when no three-part line has an unparsable port. */
  lemma {:induction false} ParseSucceedsIff(start: Config, es: seq<Entry>)
    ensures ParseEntries(start, es).Some? <==> NoBadPort(es)
    decreases |es|
  {
    if es != [] {
      var init := es[..|es| - 1];
      ParseSucceedsIff(start, init);
      assert forall k :: 0 <= k < |init| ==> init[k] == es[k];
    }
  }

  /** Once the loop has thrown on a prefix, the whole file throws. */
  lemma {:induction false} ParseFailsOnPrefix(start: Config, es: seq<Entry>, i: nat)
    requires i <= |es|
    requires ParseEntries(start, es[..i]) == None
    ensures ParseEntries(start, es) == None
    decreases |es| - i
  {
    if i < |es| {
      assert es[..i + 1][..i] == es[..i];
      ParseFailsOnPrefix(start, es, i + 1);
    } else {
      assert es[..i] == es;
    }
  }

  /** One more line read without an exception. */
  lemma ParseStep(start: Config, es: seq<Entry>, i: nat, c: Config)
    requires i < |es| && ParseEntries(start, es[..i]) == Some(c) && !es[i].BadPort?
    ensures ParseEntries(start, es[..i + 1]) == Some(Apply(c, es[i]))
  {
    assert es[..i + 1][..i] == es[..i];
  }

  /** A line whose port does not parse: the loop throws, and so does the whole file. */
  lemma ParseFailsAt(start: Config, es: seq<Entry>, i: nat)
    requires i < |es| && ParseEntries(start, es[..i]).Some? && es[i].BadPort?
    ensures ParseEntries(start, es) == None
  {
    assert es[..i + 1][..i] == es[..i];
    ParseFailsOnPrefix(start, es, i + 1);
  }

  lemma {:induction false} SubEntriesSnoc(es: seq<Entry>, e: Entry)
    ensures SubEntries(es + [e]) == SubEntries(es) + SubEntries([e])
    decreases |es|
  {
    if es == [] {
      assert es + [e] == [e];
    } else {
      assert (es + [e])[1..] == es[1..] + [e];
      SubEntriesSnoc(es[1..], e);
    }
  }

  /** The sub-servers are appended in the order their lines appear, after those already loaded. */
  lemma {:induction false} SubServersInFileOrder(start: Config, es: seq<Entry>)
    requires ParseEntries(start, es).Some?
    ensures ParseEntries(start, es).value.subServers == start.subServers + SubEntries(es)
    decreases |es|
  {
    if es != [] {
      var init := es[..|es| - 1];
      var last := es[|es| - 1];
      SubServersInFileOrder(start, init);
      assert es == init + [last];
      SubEntriesSnoc(init, last);
    }
  }

  /** The last main_server line decides the main host and port; without one they keep their values. */
  lemma {:induction false} LastMainLineWins(start: Config, es: seq<Entry>)
    requires ParseEntries(start, es).Some?
    ensures forall k :: LastMainLine(es, k) ==>
      ParseEntries(start, es).value.mainHost == Some(es[k].host) &&
      ParseEntries(start, es).value.mainPort == es[k].port
    ensures (forall k :: 0 <= k < |es| ==> !es[k].MainEntry?) ==>
      ParseEntries(start, es).value.mainHost == start.mainHost &&
      ParseEntries(start, es).value.mainPort == start.mainPort
    decreases |es|
  {
    if es != [] {
      var init := es[..|es| - 1];
      var last := es[|es| - 1];
      LastMainLineWins(start, init);
      var c := ParseEntries(start, init).value;
      assert ParseEntries(start, es) == Some(Apply(c, last));
      assert forall k :: 0 <= k < |init| ==> init[k] == es[k];
      if !last.MainEntry? {
        assert Apply(c, last).mainHost == c.mainHost && Apply(c, last).mainPort == c.mainPort;
        forall k | LastMainLine(es, k)
          ensures LastMainLine(init, k)
        {
        }
      }
    }
  }

  /** A read error or an unparsable port anywhere leaves exactly the defaults, whatever was read before. */
  lemma FailureGivesDefaults(start: Config, file: ConfigFile)
    requires file.readFails || !NoBadPort(Entries(file.lines))
    ensures Load(start, file) == Defaults()
  {
    ParseSucceedsIff(start, Entries(file.lines));
  }

  /**
   * A file read to the end with every port valid: the sub-servers are its
   * sub_server lines in order, the main server is its last main_server line,
   * and without one the host stays null and the port 0.
   */
  lemma LoadedFromFile(file: ConfigFile)
    requires !file.readFails && NoBadPort(Entries(file.lines))
    ensures Load(Initial(), file).subServers == SubEntries(Entries(file.lines))
    ensures forall k :: LastMainLine(Entries(file.lines), k) ==>
      Load(Initial(), file).mainHost == Some(Classify(file.lines[k]).host) &&
      Load(Initial(), file).mainPort == Classify(file.lines[k]).port
    ensures (forall k :: 0 <= k < |file.lines| ==> !Classify(file.lines[k]).MainEntry?) ==>
      Load(Initial(), file).mainHost == None && Load(Initial(), file).mainPort == 0
  {
    var es := Entries(file.lines);
    ParseSucceedsIff(Initial(), es);
    SubServersInFileOrder(Initial(), es);
    LastMainLineWins(Initial(), es);
  }

  /** The defaults name three distinct local sub-servers. */
  lemma DefaultSubServers()
    ensures |Defaults().subServers| == 3
    ensures forall i :: 0 <= i < 3 ==> Defaults().subServers[i] == SubServerInfo(DEFAULT_HOST, 12346 + i)
  {
  }

  // ---------------------------------------------------------------- writing a configuration

  /** A configuration line naming one server: its type, host and port separated by ':'. */
  function EntryLine(kind: string, host: string, port: nat): string {
    kind + ":" + host + ":" + Decimal(port)
  }

  /** A sub-server that a configuration line can name: no ':' in the host, a port parseInt accepts. */
  predicate Describable(server: SubServerInfo) {
    ':' !in server.host && 0 <= server.port <= INT_MAX
  }

  /** A configuration file's lines: the main server, then the sub-servers in order. */
  function ConfigLines(host: string, port: nat, subs: seq<SubServerInfo>): (lines: seq<string>)
    requires forall k :: 0 <= k < |subs| ==> Describable(subs[k])
    ensures |lines| == |subs| + 1
  {
    [EntryLine("main_server", host, port)] +
    seq(|subs|, k requires 0 <= k < |subs| => assert Describable(subs[k]); EntryLine("sub_server", subs[k].host, subs[k].port as nat))
  }

  /** A line that is not ignored and splits into three parts, classified by its parts. */
  lemma ClassifyParts(line: string, parts: seq<string>)
    requires !Ignored(line) && Split(Trim(line), ':') == parts && |parts| == 3
    ensures ParseInt(parts[2]).None? ==> Classify(line) == BadPort
    ensures ParseInt(parts[2]).Some? && parts[0] == "main_server" ==> Classify(line) == MainEntry(parts[1], ParseInt(parts[2]).value)
    ensures ParseInt(parts[2]).Some? && parts[0] == "sub_server" ==> Classify(line) == SubEntry(parts[1], ParseInt(parts[2]).value)
    ensures ParseInt(parts[2]).Some? && parts[0] != "main_server" && parts[0] != "sub_server" ==> Classify(line) == NoEntry
  {
  }

  /** A main_server or sub_server line is read back as the entry it was written from. */
  lemma EntryLineReadsBack(kind: string, host: string, port: nat)
    requires kind == "main_server" || kind == "sub_server"
    requires ':' !in host && port <= INT_MAX
    ensures Classify(EntryLine(kind, host, port)) ==
      if kind == "main_server" then MainEntry(host, port) else SubEntry(host, port)
  {
    EntryLineParts(kind, host, port);
    FieldsEntry(kind, host, port);
  }

  /** Such a line is not skipped, and it trims to itself and splits into its three fields. */
  lemma EntryLineParts(kind: string, host: string, port: nat)
    requires kind == "main_server" || kind == "sub_server"
    requires ':' !in host
    ensures Classify(EntryLine(kind, host, port)) == PartsEntry([kind, host, Decimal(port)])
  {
    var line := EntryLine(kind, host, port);
    var digits := Decimal(port);
    assert line == kind + [':'] + host + [':'] + digits;
    assert ':' !in kind;
    DigitsHaveNoColon(digits);
    assert line[0] == kind[0] && line[|line| - 1] == digits[|digits| - 1];
    TrimVisible(line);
    SplitThree(kind, host, digits, ':');
  }

  /** The three fields of an entry line give the entry they were written from. */
  lemma FieldsEntry(kind: string, host: string, port: nat)
    requires kind == "main_server" || kind == "sub_server"
    requires port <= INT_MAX
    ensures PartsEntry([kind, host, Decimal(port)]) ==
      if kind == "main_server" then MainEntry(host, port) else SubEntry(host, port)
  {
    ParseIntDecimal(port);
    assert "sub_server"[0] != "main_server"[0];
  }

  lemma DigitsHaveNoColon(digits: string)
    requires |digits| >= 1 && AllDigits(digits)
    ensures ':' !in digits && !IsTrimmable(digits[|digits| - 1])
  {
    forall k | 0 <= k < |digits| ensures digits[k] != ':' {
      assert IsDigit(digits[k]);
    }
  }

  /** The entries a written configuration should produce. */
  function WrittenEntries(host: string, port: nat, subs: seq<SubServerInfo>): (es: seq<Entry>)
    ensures |es| == |subs| + 1
  {
    [MainEntry(host, port)] + seq(|subs|, k requires 0 <= k < |subs| => SubEntry(subs[k].host, subs[k].port))
  }

  lemma ConfigLinesEntries(host: string, port: nat, subs: seq<SubServerInfo>)
    requires ':' !in host && port <= INT_MAX
    requires forall k :: 0 <= k < |subs| ==> Describable(subs[k])
    ensures Entries(ConfigLines(host, port, subs)) == WrittenEntries(host, port, subs)
  {
    var es := Entries(ConfigLines(host, port, subs));
    var ws := WrittenEntries(host, port, subs);
    forall k | 0 <= k < |es|
      ensures es[k] == ws[k]
    {
      WrittenEntryAt(host, port, subs, k);
    }
    SameEntries(es, ws);
  }

  lemma WrittenEntryAt(host: string, port: nat, subs: seq<SubServerInfo>, k: nat)
    requires ':' !in host && port <= INT_MAX
    requires forall k :: 0 <= k < |subs| ==> Describable(subs[k])
    requires k <= |subs|
    ensures Entries(ConfigLines(host, port, subs))[k] == WrittenEntries(host, port, subs)[k]
  {
    var lines := ConfigLines(host, port, subs);
    if k == 0 {
      EntryOfLine(lines, 0, "main_server", host, port);
    } else {
      SubServerLine(host, port, subs, k - 1);
      EntryOfLine(lines, k, "sub_server", subs[k - 1].host, subs[k - 1].port);
    }
  }

  lemma SubServerLine(host: string, port: nat, subs: seq<SubServerInfo>, k: nat)
    requires forall k :: 0 <= k < |subs| ==> Describable(subs[k])
    requires k < |subs|
    ensures ConfigLines(host, port, subs)[k + 1] == EntryLine("sub_server", subs[k].host, subs[k].port)
  {
  }

  lemma EntryOfLine(lines: seq<string>, k: nat, kind: string, host: string, port: nat)
    requires kind == "main_server" || kind == "sub_server"
    requires ':' !in host && port <= INT_MAX
    requires k < |lines| && lines[k] == EntryLine(kind, host, port)
    ensures Entries(lines)[k] == if kind == "main_server" then MainEntry(host, port) else SubEntry(host, port)
  {
    EntryLineReadsBack(kind, host, port);
  }

  lemma SameEntries(es: seq<Entry>, ws: seq<Entry>)
    requires |es| == |ws| && forall k :: 0 <= k < |es| ==> es[k] == ws[k]
    ensures es == ws
  {
  }

  lemma {:induction false} SubEntriesAllSub(es: seq<Entry>, subs: seq<SubServerInfo>)
    requires |es| == |subs|
    requires forall k :: 0 <= k < |es| ==> es[k] == SubEntry(subs[k].host, subs[k].port)
    ensures SubEntries(es) == subs
    decreases |es|
  {
    if es != [] {
      SubEntriesAllSub(es[1..], subs[1..]);
    }
  }

  lemma ParseWritten(host: string, port: nat, subs: seq<SubServerInfo>)
    ensures ParseEntries(Initial(), WrittenEntries(host, port, subs)) == Some(Config(Some(host), port, subs))
  {
    var es := WrittenEntries(host, port, subs);
    assert forall k :: 1 <= k < |es| ==> es[k] == SubEntry(subs[k - 1].host, subs[k - 1].port);
    assert NoBadPort(es);
    ParseSucceedsIff(Initial(), es);
    var c := ParseEntries(Initial(), es).value;
    assert LastMainLine(es, 0);
    LastMainLineWins(Initial(), es);
    assert c.mainHost == Some(host) && c.mainPort == port;
    SubServersInFileOrder(Initial(), es);
    SubEntriesAllSub(es[1..], subs);
    assert SubEntries(es) == SubEntries(es[1..]);
    assert c.subServers == subs;
  }

  /**
   * Loading a file written from a configuration gives that configuration
   * back: the main server, and the sub-servers in the same order.
   */
  lemma ConfigRoundTrip(host: string, port: nat, subs: seq<SubServerInfo>)
    requires ':' !in host && port <= INT_MAX
    requires forall k :: 0 <= k < |subs| ==> Describable(subs[k])
    ensures Load(Initial(), ConfigFile(ConfigLines(host, port, subs), false)) == Config(Some(host), port, subs)
  {
    ConfigLinesEntries(host, port, subs);
    ParseWritten(host, port, subs);
  }

  /**
   * A comment is recognised only by a '#' in the very first column: an
   * indented line whose third part is not a number is parsed and throws.
   */
  lemma IndentedCommentThrows()
    ensures Classify(" # host:port:name") == BadPort
  {
    CommentTrimmed();
    CommentParts();
    ParseIntRejectsNonDigit("name", 0);
    ClassifyParts(" # host:port:name", ["# host", "port", "name"]);
  }

  lemma CommentTrimmed()
    ensures Trim(" # host:port:name") == "# host:port:name"
  {
    var text := "# host:port:name";
    assert " # host:port:name" == [' '] + text;
    assert TrimStart(" # host:port:name") == TrimStart(text);
    TrimVisible(text);
  }

  lemma CommentParts()
    ensures Split("# host:port:name", ':') == ["# host", "port", "name"]
  {
    assert "# host:port:name" == "# host" + [':'] + "port" + [':'] + "name";
    SplitThree("# host", "port", "name", ':');
  }

  /** Such a line anywhere in the file resets the whole configuration to the defaults. */
  lemma IndentedCommentResets(file: ConfigFile)
    requires " # host:port:name" in file.lines
    ensures Load(Initial(), file) == Defaults()
  {
    IndentedCommentThrows();
    var es := Entries(file.lines);
    var k :| 0 <= k < |file.lines| && file.lines[k] == " # host:port:name";
    assert es[k] == BadPort;
    FailureGivesDefaults(Initial(), file);
  }

  /**
   * parseInt runs before the type is looked at: a read line of three parts
   * whose third part is not an int resets the whole configuration to the
   * defaults, whatever its type, an unknown one included.
   */
  lemma BadPortResets(start: Config, file: ConfigFile, k: nat)
    requires k < |file.lines| && !Ignored(file.lines[k])
    requires |Split(Trim(file.lines[k]), ':')| == 3
    requires ParseInt(Split(Trim(file.lines[k]), ':')[2]).None?
    ensures Load(start, file) == Defaults()
  {
    var es := Entries(file.lines);
    ClassifyParts(file.lines[k], Split(Trim(file.lines[k]), ':'));
    assert es[k] == BadPort;
    FailureGivesDefaults(start, file);
  }

  /**
   * The loader's static state. The constructor stands for the class
   * initialiser, which creates the empty list and calls loadConfiguration.
   */
  class ServerConfigLoader {
    var mainServerHost: Option<string>
    var mainServerPort: int
    var subServers: seq<SubServerInfo>

    function Current(): Config
      reads this
    {
      Config(mainServerHost, mainServerPort, subServers)
    }

    constructor(file: ConfigFile)
      ensures Current() == Load(Initial(), file)
    {
      mainServerHost := None;
      mainServerPort := 0;
      subServers := [];
      new;
      LoadConfiguration(file);
    }

    /**
     * Reads the lines in order: a line that is neither blank nor starts with
     * '#' is trimmed and split at ':'; with exactly three parts the port is
     * parsed, then a main_server line sets the main host and port and a
     * sub_server line appends a sub-server. Either exception ends the loop in
     * setDefaultValues.
     */
    method LoadConfiguration(file: ConfigFile)
      modifies this
      ensures Current() == Load(old(Current()), file)
    {
      ghost var start := Current();
      var lines := file.lines;
      ghost var es := Entries(lines);
      var i := 0;
      while i < |lines|
        invariant 0 <= i <= |lines|
        invariant ParseEntries(start, es[..i]) == Some(Current())
      {
        ghost var before := Current();
        var parsed := ApplyLine(lines[i]);
        if !parsed {
          ParseFailsAt(start, es, i);
          SetDefaultValues();
          return;
        }
        ParseStep(start, es, i, before);
        i := i + 1;
      }
      assert es[..i] == es;
      if file.readFails {
        SetDefaultValues();
      }
    }

    /**
     * The body of the read loop for one line: a line that is neither blank
     * nor starts with '#' is trimmed and split at ':'. False when
     * Integer.parseInt throws, before anything changed.
     */
    method ApplyLine(line: string) returns (parsed: bool)
      modifies this
      ensures parsed <==> !Classify(line).BadPort?
      ensures parsed ==> Current() == Apply(old(Current()), Classify(line))
      ensures !parsed ==> Current() == old(Current())
    {
      if !(Trim(line) == []) && !(|line| > 0 && line[0] == '#') {
        var parts := Split(Trim(line), ':');
        parsed := ApplyParts(parts);
      } else {
        parsed := true;
      }
    }

    /** The parts of a line that is read: with exactly three, the port is parsed, then the type decides. */
    method ApplyParts(parts: seq<string>) returns (parsed: bool)
      modifies this
      ensures parsed <==> !PartsEntry(parts).BadPort?
      ensures parsed ==> Current() == Apply(old(Current()), PartsEntry(parts))
      ensures !parsed ==> Current() == old(Current())
    {
      parsed := true;
      if |parts| == 3 {
        var kind := parts[0];
        var host := parts[1];
        var port := ParseInt(parts[2]);
        if port.None? {
          return false;
        }
        if kind == "main_server" {
          mainServerHost := Some(host);
          mainServerPort := port.value;
        } else if kind == "sub_server" {
          subServers := subServers + [SubServerInfo(host, port.value)];
        }
      }
    }

    /** The main server and the three sub-servers of the defaults; the list is cleared and refilled. */
    method SetDefaultValues()
      modifies this
      ensures Current() == Defaults()
    {
      mainServerHost := Some(DEFAULT_HOST);
      mainServerPort := DEFAULT_MAIN_PORT;
      subServers := [];
      subServers := subServers + [SubServerInfo(DEFAULT_HOST, 12346)];
      subServers := subServers + [SubServerInfo(DEFAULT_HOST, 12347)];
      subServers := subServers + [SubServerInfo(DEFAULT_HOST, 12348)];
    }

    method GetMainServerHost() returns (host: Option<string>)
      ensures host == Current().mainHost
    {
      host := mainServerHost;
    }

    method GetMainServerPort() returns (port: int)
      ensures port == Current().mainPort
    {
      port := mainServerPort;
    }

    /** A read-only view of the list: the sub-servers in their loaded order. */
    method GetSubServers() returns (servers: seq<SubServerInfo>)
      ensures servers == Current().subServers
    {
      servers := subServers;
    }

    /** The directory and the chunk size are constants, whatever the file says. */
    method GetServerDirectory() returns (dir: string)
      ensures dir == "server_directory"
    {
      dir := SERVER_DIRECTORY;
    }

    method GetChunkSize() returns (size: nat)
      ensures size == 1024
    {
      size := CHUNK_SIZE;
    }
  }
}
