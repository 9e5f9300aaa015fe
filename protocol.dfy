/**
 * What one connection does, as a function of the state before it and of the
 * bytes the peer sends: a storage-node connection (STORE / RETRIEVE) and a
 * client connection to the coordinator (ENVOYER / RECEVOIR / LISTER /
 * SUPPRIMER). Directories are maps from file name to content. A request
 * that ends in an exception leaves the state as far as it got and sends no
 * further reply bytes.
 */
module Protocol {
  import opened Wrappers
  import opened JavaString
  import opened DataStreams
  import opened ChunkedIO
  import opened Fragmentation

  /** A directory on disk: file name to content. */
  type Directory = map<string, Bytes>

  // The words of the protocol. They are functions rather than constants so
  // that the verifier expands their encodings only where a proof asks.

  function Store(): string { "STORE" }
  function Retrieve(): string { "RETRIEVE" }
  function Envoyer(): string { "ENVOYER" }
  function Recevoir(): string { "RECEVOIR" }
  function Lister(): string { "LISTER" }
  function Supprimer(): string { "SUPPRIMER" }

  function Ok(): string { "OK" }
  function NotFound(): string { "Fichier introuvable" }
  function UnknownCommand(): string { "COMMANDE INCONNUE" }
  function NoFiles(): string { "Aucun fichier trouvé." }
  function Deleted(): string { "Fichier supprimé avec succès." }
  function DeleteFailed(): string { "Erreur lors de la suppression du fichier." }

  /** What distributeFile writes to node i ahead of the fragment's bytes. */
  function StoreHeader(fragmentName: string, size: int): Bytes
    requires Writable(fragmentName)
  {
    WriteUtf(Store()) + WriteUtf(fragmentName) + WriteLong(size)
  }

  /** What assembleFile writes to node i. */
  function RetrieveRequest(fragmentName: string): Bytes
    requires Writable(fragmentName)
  {
    WriteUtf(Retrieve()) + WriteUtf(fragmentName)
  }

  /** sendFile and sendFileInChunks: "OK", the file length, then every byte of the file. */
  function FileReply(content: Bytes): Bytes {
    WriteUtf(Ok()) + WriteLong(|content|) + content
  }

  /** The client's requests (Client.java): command, then name, then size and bytes for an upload. */
  function EnvoyerRequest(fileName: string, data: Bytes): Bytes
    requires Writable(fileName)
  {
    WriteUtf(Envoyer()) + WriteUtf(fileName) + WriteLong(|data|) + data
  }

  function RecevoirRequest(fileName: string): Bytes
    requires Writable(fileName)
  {
    WriteUtf(Recevoir()) + WriteUtf(fileName)
  }

  function SupprimerRequest(fileName: string): Bytes
    requires Writable(fileName)
  {
    WriteUtf(Supprimer()) + WriteUtf(fileName)
  }

  // ---------------------------------------------------------------- storage node

  /** What one connection leaves behind on a node: its files, the bytes it answered, and whether it ended in an exception. */
  datatype NodeStep = NodeStep(files: Directory, reply: Bytes, failed: bool)

  /**
   * One connection accepted by a storage node. STORE truncates the named
   * file and fills it with the bytes receiveFile copies (all of the declared
   * size, or what arrived before the stream ended); RETRIEVE answers with
   * sendFile or "Fichier introuvable"; any other command is read and
   * dropped without a reply. A request cut short ends the connection in an
   * exception, and so does a name the file streams cannot open: a
   * directory, or a path into a subdirectory, which a node never has.
   */
  function SubServerStep(files: Directory, request: Bytes): NodeStep {
    match ReadUtf(request)
    case None => NodeStep(files, [], true)
    case Some((command, afterCommand)) =>
      if EqualsIgnoreCase(Store(), command) then
        match ReadUtf(afterCommand)
        case None => NodeStep(files, [], true)
        case Some((name, afterName)) =>
          match ReadLong(afterName)
          case None => NodeStep(files, [], true)
          case Some((size, payload)) =>
            if !PlainFileName(name) then NodeStep(files, [], true)  // FileOutputStream throws
            else
              var c := Transfer(payload, size);
              NodeStep(files[name := c.data], [], !c.complete)  // a short stream: write(buffer, 0, -1) throws
      else if EqualsIgnoreCase(Retrieve(), command) then
        match ReadUtf(afterCommand)
        case None => NodeStep(files, [], true)
        case Some((name, _)) =>
          if DirectoryAlias(name) then NodeStep(files, [], true)  // exists, but FileInputStream throws on a directory
          else if name in files then NodeStep(files, FileReply(files[name]), false)
          else NodeStep(files, WriteUtf(NotFound()), false)
      else NodeStep(files, [], false)
  }

  /**
   * startSubServer's accept loop as the source writes it: the try around each
   * connection has no catch, so the first connection that ends in an
   * exception ends the loop, and the connections after it are refused. The
   * result is the node's files and the replies of the connections served.
   */
  function ServeAsWritten(files: Directory, connections: seq<Bytes>): (r: (Directory, seq<Bytes>))
    ensures |r.1| <= |connections|
    decreases |connections|
  {
    if connections == [] then (files, [])
    else
      var step := SubServerStep(files, connections[0]);
      if step.failed then (step.files, [step.reply])
      else
        var rest := ServeAsWritten(step.files, connections[1..]);
        (rest.0, [step.reply] + rest.1)
  }

  /** The accept loop as evidently intended: a failed connection is dropped and the node goes on serving. */
  function Serve(files: Directory, connections: seq<Bytes>): (r: (Directory, seq<Bytes>))
    ensures |r.1| == |connections|
    decreases |connections|
  {
    if connections == [] then (files, [])
    else
      var step := SubServerStep(files, connections[0]);
      var rest := Serve(step.files, connections[1..]);
      (rest.0, [step.reply] + rest.1)
  }

  // ---------------------------------------------------------------- coordinator

  datatype Distribution = Distribution(nodes: seq<Directory>, complete: bool)

  /**
   * distributeFile from fragment i on. `plan` holds the bytesToSend of every
   * round, PlanSizes(fileSize, N): fragment i declares plan[i] bytes, copies
   * them from the client's stream `input` and hands the STORE request to
   * node i; a fragment name writeUTF refuses, or a client stream that ends
   * early, stops the loop.
   */
  function DistributeFrom(nodes: seq<Directory>, fileName: string, plan: seq<int>, input: Bytes, i: nat): (r: Distribution)
    requires |plan| == |nodes| && i <= |nodes|
    ensures |r.nodes| == |nodes|
    decreases |nodes| - i, 1
  {
    if i == |nodes| then Distribution(nodes, true)
    else DistributeFragment(nodes, fileName, plan, input, i)
  }

  /** One round of distributeFile's loop, for fragment i, and the rounds after it. */
  function DistributeFragment(nodes: seq<Directory>, fileName: string, plan: seq<int>, input: Bytes, i: nat): (r: Distribution)
    requires |plan| == |nodes| && i < |nodes|
    ensures |r.nodes| == |nodes|
    decreases |nodes| - i, 0
  {
    var name := FragmentName(fileName, i);
    if !Writable(name) then Distribution(nodes, false)
    else
      var c := Transfer(input, plan[i]);
      var stored := nodes[i := SubServerStep(nodes[i], StoreHeader(name, plan[i]) + c.data).files];
      if c.complete then DistributeFrom(stored, fileName, plan, c.rest, i + 1)
      else Distribution(stored, false)
  }

  /**
   * The result of assembling a file: the bytes staged in the coordinator's
   * directory and how the assembly ended. Missing is assembleFile returning
   * null (a node answered something other than "OK"); Failed is an exception.
   */
  datatype Assembly = Assembled(staged: Bytes) | Missing(staged: Bytes) | Failed(staged: Bytes)

  /**
   * assembleFile from fragment i on, reading the node's status string before
   * the length: a fragment that is not "OK" ends the assembly as Missing.
   */
  function AssembleFrom(nodes: seq<Directory>, fileName: string, i: nat, staged: Bytes): Assembly
    requires i <= |nodes|
    decreases |nodes| - i, 1
  {
    if i == |nodes| then Assembled(staged)
    else AssembleFragment(nodes, fileName, i, staged)
  }

  /** One round of assembleFile's loop, for fragment i, and the rounds after it. */
  function AssembleFragment(nodes: seq<Directory>, fileName: string, i: nat, staged: Bytes): Assembly
    requires i < |nodes|
    decreases |nodes| - i, 0
  {
    var name := FragmentName(fileName, i);
    if !Writable(name) then Failed(staged)
    else
      var reply := SubServerStep(nodes[i], RetrieveRequest(name)).reply;
      match ReadUtf(reply)
      case None => Failed(staged)
      case Some((status, afterStatus)) =>
        if status != Ok() then Missing(staged)
        else
          match ReadLong(afterStatus)
          case None => Failed(staged)
          case Some((fragmentSize, payload)) =>
            var c := Transfer(payload, fragmentSize);
            if c.complete then AssembleFrom(nodes, fileName, i + 1, staged + c.data)
            else Failed(staged + c.data)
  }

  /**
   * assembleFile as the source writes it: the first 8 bytes of the node's
   * reply are taken as the fragment length, although the reply starts with
   * the status string. It never reports a missing fragment.
   */
  function AssembleAsWrittenFrom(nodes: seq<Directory>, fileName: string, i: nat, staged: Bytes): (r: Assembly)
    requires i <= |nodes|
    ensures !r.Missing?
    decreases |nodes| - i, 1
  {
    if i == |nodes| then Assembled(staged)
    else AssembleAsWrittenFragment(nodes, fileName, i, staged)
  }

  /** One round of assembleFile's loop as the source writes it, and the rounds after it. */
  function AssembleAsWrittenFragment(nodes: seq<Directory>, fileName: string, i: nat, staged: Bytes): (r: Assembly)
    requires i < |nodes|
    ensures !r.Missing?
    decreases |nodes| - i, 0
  {
    var name := FragmentName(fileName, i);
    if !Writable(name) then Failed(staged)
    else
      var reply := SubServerStep(nodes[i], RetrieveRequest(name)).reply;
      match ReadLong(reply)
      case None => Failed(staged)
      case Some((fragmentSize, payload)) =>
        var c := Transfer(payload, fragmentSize);
        if c.complete then AssembleAsWrittenFrom(nodes, fileName, i + 1, staged + c.data)
        else Failed(staged + c.data)
  }

  /**
   * The coordinator's directory, whether that directory still exists (it is
   * created at start-up, and SUPPRIMER of the empty name removes it when it
   * is empty), and each storage node's directory, in node order.
   */
  datatype State = State(directory: Directory, hasDirectory: bool, nodes: seq<Directory>)

  datatype Step = Step(state: State, reply: Bytes)

  /** Every entry of a directory has a plain file name that travels as a wire string. */
  predicate WireNames(d: Directory) {
    forall name :: name in d ==> IsWireName(name) && PlainFileName(name)
  }

  /** `listing` is one enumeration of the directory: every entry exactly once. */
  predicate Enumerates(listing: seq<string>, d: Directory) {
    && (forall k :: 0 <= k < |listing| ==> listing[k] in d)
    && (forall name :: name in d ==> name in listing)
    && (forall j, k :: 0 <= j < k < |listing| ==> listing[j] != listing[k])
  }

  /** ENVOYER: name, size, then the bytes, split over the nodes; "OK" once every fragment went out. */
  function EnvoyerStep(st: State, args: Bytes): Step {
    match ReadUtf(args)
    case None => Step(st, [])
    case Some((fileName, afterName)) =>
      match ReadLong(afterName)
      case None => Step(st, [])
      case Some((fileSize, payload)) =>
        if |st.nodes| == 0 then Step(st, [])  // fileSize / 0 throws ArithmeticException
        else
          var d := DistributeFrom(st.nodes, fileName, PlanSizes(fileSize, |st.nodes|), payload, 0);
          Step(st.(nodes := d.nodes), if d.complete then WriteUtf(Ok()) else [])
  }

  /**
   * RECEVOIR: the file is staged under its own name in the coordinator's
   * directory, sent with sendFileInChunks and deleted; a missing fragment
   * is answered with "Fichier introuvable" and leaves the staged bytes. A
   * name the staging stream cannot open ends the request at once.
   */
  function RecevoirStep(st: State, args: Bytes): Step {
    match ReadUtf(args)
    case None => Step(st, [])
    case Some((fileName, _)) =>
      if !st.hasDirectory || !PlainFileName(fileName) then Step(st, [])  // FileOutputStream throws
      else
        match AssembleFrom(st.nodes, fileName, 0, [])
        case Assembled(b) => Step(st.(directory := st.directory - {fileName}), FileReply(b))
        case Missing(b) => Step(st.(directory := st.directory[fileName := b]), WriteUtf(NotFound()))
        case Failed(b) => Step(st.(directory := st.directory[fileName := b]), [])
  }

  /** listFiles: "OK" and one string per entry, or the no-file message; no terminating empty string. */
  function ListReply(listing: seq<string>): Bytes
    requires forall k :: 0 <= k < |listing| ==> IsWireName(listing[k])
  {
    ReadWriteUtfs(listing);
    if listing == [] then WriteUtf(NoFiles()) else WriteUtf(Ok()) + WriteUtfs(listing)
  }

  /**
   * SUPPRIMER: removes the named entry of the coordinator's directory only.
   * The empty name is the directory itself, which File.delete removes when
   * it is empty; "." and ".." exist but cannot be deleted.
   */
  function SupprimerStep(st: State, args: Bytes): Step {
    match ReadUtf(args)
    case None => Step(st, [])
    case Some((fileName, _)) =>
      if fileName == "" && st.hasDirectory && st.directory == map[] then
        Step(st.(hasDirectory := false), WriteUtf(Deleted()))
      else if st.hasDirectory && fileName in st.directory then
        Step(st.(directory := st.directory - {fileName}), WriteUtf(Deleted()))
      else Step(st, WriteUtf(DeleteFailed()))
  }

  /**
   * handleClient: one command, matched after toUpperCase; `listing` is the
   * order in which the file system lists the coordinator's directory.
   */
  function ClientStep(st: State, request: Bytes, listing: seq<string>): Step
    requires WireNames(st.directory) && Enumerates(listing, st.directory)
  {
    match ReadUtf(request)
    case None => Step(st, [])
    case Some((command, args)) =>
      var c := ToUpper(command);
      if c == Envoyer() then EnvoyerStep(st, args)
      else if c == Recevoir() then RecevoirStep(st, args)
      else if c == Lister() then Step(st, ListReply(if st.hasDirectory then listing else []))
      else if c == Supprimer() then SupprimerStep(st, args)
      else Step(st, WriteUtf(UnknownCommand()))
  }

  /** The client's LISTER loop: strings are read until an empty one; None if the stream ends first. */
  function ReadUntilEmpty(b: Bytes): Option<seq<string>>
    decreases |b|
  {
    match ReadUtf(b)
    case None => None
    case Some((s, rest)) =>
      if s == "" then Some([])
      else
        match ReadUntilEmpty(rest)
        case None => None
        case Some(more) => Some([s] + more)
  }
}
