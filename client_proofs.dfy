/**
 * What a client of the coordinator sees: handleClient's dispatch on the
 * upper-cased command, an upload and a download end to end, deletion, and
 * the listing as the client reads it.
 */
module ClientProofs {
  import opened Sequences
  import opened Wrappers
  import opened JavaString
  import opened DataStreams
  import opened ChunkedIO
  import opened Fragmentation
  import opened Protocol
  import opened ProtocolProofs

  // ---------------------------------------------------------------- dispatch

  /** The four commands handleClient knows, in the upper case it compares them in. */
  predicate KnownCommand(c: string) {
    c == Envoyer() || c == Recevoir() || c == Lister() || c == Supprimer()
  }

  lemma CommandWords()
    ensures ToUpper(Envoyer()) == Envoyer() && ToUpper(Recevoir()) == Recevoir()
    ensures ToUpper(Lister()) == Lister() && ToUpper(Supprimer()) == Supprimer()
    ensures Envoyer() != Recevoir() && Envoyer() != Lister() && Envoyer() != Supprimer()
    ensures Recevoir() != Lister() && Recevoir() != Supprimer() && Lister() != Supprimer()
  {
  }

  /** Upper-casing keeps a wire string a wire string. */
  lemma UpperWireName(s: string)
    requires IsWireName(s)
    ensures IsWireName(ToUpper(s))
  {
    var u := ToUpper(s);
    forall k | 0 <= k < |u| ensures 0 < u[k] as int < 0x80 {
      assert u[k] == ToUpperChar(s[k]);
    }
  }

  /**
   * handleClient matches the command after toUpperCase: a command in any
   * letter case is handled exactly as its upper-case form.
   */
  lemma CommandsIgnoreCase(st: State, command: string, args: Bytes, listing: seq<string>)
    requires WireNames(st.directory) && Enumerates(listing, st.directory) && IsWireName(command)
    ensures Writable(command) && Writable(ToUpper(command))
    ensures ClientStep(st, WriteUtf(command) + args, listing) == ClientStep(st, WriteUtf(ToUpper(command)) + args, listing)
  {
    UpperWireName(command);
    ReadWriteUtf(command, args);
    ReadWriteUtf(ToUpper(command), args);
    ToUpperIdempotent(command);
    SameUpperSameStep(st, WriteUtf(command) + args, WriteUtf(ToUpper(command)) + args, command, ToUpper(command), args, listing);
  }

  lemma SameUpperSameStep(st: State, r1: Bytes, r2: Bytes, c1: string, c2: string, args: Bytes, listing: seq<string>)
    requires WireNames(st.directory) && Enumerates(listing, st.directory)
    requires ReadUtf(r1) == Some((c1, args)) && ReadUtf(r2) == Some((c2, args)) && ToUpper(c1) == ToUpper(c2)
    ensures ClientStep(st, r1, listing) == ClientStep(st, r2, listing)
  {
  }

  /** Any other command is answered "COMMANDE INCONNUE" and changes nothing. */
  lemma UnknownCommandChangesNothing(st: State, command: string, args: Bytes, listing: seq<string>)
    requires WireNames(st.directory) && Enumerates(listing, st.directory) && IsWireName(command)
    requires !KnownCommand(ToUpper(command))
    ensures Writable(command)
    ensures ClientStep(st, WriteUtf(command) + args, listing) == Step(st, WriteUtf(UnknownCommand()))
  {
    ReadWriteUtf(command, args);
  }

  /** The request reaches the handler of its command, with the bytes after the command. */
  lemma Dispatch(st: State, command: string, args: Bytes, listing: seq<string>)
    requires WireNames(st.directory) && Enumerates(listing, st.directory) && KnownCommand(command)
    ensures Writable(command)
    ensures ClientStep(st, WriteUtf(command) + args, listing) ==
      if command == Envoyer() then EnvoyerStep(st, args)
      else if command == Recevoir() then RecevoirStep(st, args)
      else if command == Lister() then Step(st, ListReply(if st.hasDirectory then listing else []))
      else SupprimerStep(st, args)
  {
    WordsAreWireNames();
    ReadWriteUtf(command, args);
    DispatchOn(st, WriteUtf(command) + args, command, args, listing);
  }

  lemma DispatchOn(st: State, request: Bytes, command: string, args: Bytes, listing: seq<string>)
    requires WireNames(st.directory) && Enumerates(listing, st.directory) && KnownCommand(command)
    requires ReadUtf(request) == Some((command, args))
    ensures ClientStep(st, request, listing) ==
      if command == Envoyer() then EnvoyerStep(st, args)
      else if command == Recevoir() then RecevoirStep(st, args)
      else if command == Lister() then Step(st, ListReply(if st.hasDirectory then listing else []))
      else SupprimerStep(st, args)
  {
    CommandWords();
  }

  // ---------------------------------------------------------------- ENVOYER

  /**
   * An upload with every byte present: every node j gets fragment j of the
   * file under its fragment name, nothing else changes, and the client is
   * answered "OK".
   */
  lemma EnvoyerStoresFragments(st: State, fileName: string, data: Bytes)
    requires |st.nodes| >= 1 && NamesFit(fileName, |st.nodes|) && |data| <= LONG_MAX
    ensures Writable(fileName)
    ensures var r := EnvoyerStep(st, WriteUtf(fileName) + WriteLong(|data|) + data);
      && r.reply == WriteUtf(Ok())
      && r.state == st.(nodes := r.state.nodes) && |r.state.nodes| == |st.nodes|
      && forall j :: 0 <= j < |st.nodes| ==>
           r.state.nodes[j] == st.nodes[j][FragmentName(fileName, j) := Fragment(data, |st.nodes|, j)]
  {
    EnvoyerArgs(fileName, |data|, data);
    EnvoyerStepOf(st, WriteUtf(fileName) + WriteLong(|data|) + data, fileName, WriteLong(|data|) + data, |data|, data);
    DistributeStoresFragments(st.nodes, fileName, data);
  }

  /**
   * An upload whose client sends fewer bytes than it declared: the
   * coordinator never answers "OK", the file stays out of its directory,
   * and on every node only that file's fragment may have changed.
   */
  lemma EnvoyerCutShort(st: State, fileName: string, size: int, data: Bytes)
    requires |st.nodes| >= 1 && IsWireName(fileName) && |data| < size <= LONG_MAX
    ensures Writable(fileName)
    ensures var r := EnvoyerStep(st, WriteUtf(fileName) + WriteLong(size) + data);
      && r.reply == []
      && r.state == st.(nodes := r.state.nodes) && |r.state.nodes| == |st.nodes|
      && forall j :: 0 <= j < |st.nodes| ==>
           r.state.nodes[j] - {FragmentName(fileName, j)} == st.nodes[j] - {FragmentName(fileName, j)}
  {
    EnvoyerArgs(fileName, size, data);
    EnvoyerStepOf(st, WriteUtf(fileName) + WriteLong(size) + data, fileName, WriteLong(size) + data, size, data);
    PlanSumsToFile(size, |st.nodes|);
    PlanIsLong(size, |st.nodes|);
    DistributeCutShort(st.nodes, fileName, PlanSizes(size, |st.nodes|), data);
  }

  /** With no storage node the division by the node count throws: no answer, no change. */
  lemma EnvoyerWithoutNodes(st: State, fileName: string, size: int, data: Bytes)
    requires |st.nodes| == 0 && IsWireName(fileName) && LONG_MIN <= size <= LONG_MAX
    ensures Writable(fileName)
    ensures EnvoyerStep(st, WriteUtf(fileName) + WriteLong(size) + data) == Step(st, [])
  {
    EnvoyerArgs(fileName, size, data);
  }

  /** The coordinator reads back the name and the size the client wrote. */
  lemma EnvoyerArgs(fileName: string, size: int, data: Bytes)
    requires IsWireName(fileName) && LONG_MIN <= size <= LONG_MAX
    ensures Writable(fileName)
    ensures ReadUtf(WriteUtf(fileName) + WriteLong(size) + data) == Some((fileName, WriteLong(size) + data))
    ensures ReadLong(WriteLong(size) + data) == Some((size, data))
  {
    AsciiWritable(fileName);
    ReadWriteUtf(fileName, WriteLong(size) + data);
    assert WriteUtf(fileName) + WriteLong(size) + data == WriteUtf(fileName) + (WriteLong(size) + data);
    ReadWriteLong(size, data);
  }

  lemma EnvoyerStepOf(st: State, args: Bytes, fileName: string, afterName: Bytes, size: int, payload: Bytes)
    requires ReadUtf(args) == Some((fileName, afterName)) && ReadLong(afterName) == Some((size, payload))
    requires |st.nodes| >= 1
    ensures var d := DistributeFrom(st.nodes, fileName, PlanSizes(size, |st.nodes|), payload, 0);
      EnvoyerStep(st, args) == Step(st.(nodes := d.nodes), if d.complete then WriteUtf(Ok()) else [])
  {
  }

  // ---------------------------------------------------------------- RECEVOIR

  /**
   * A download of a file every node holds a fragment of: the client gets
   * "OK", the length and the fragments in node order, and the staged copy
   * is deleted again.
   */
  lemma RecevoirDelivers(st: State, fileName: string)
    requires st.hasDirectory && PlainFileName(fileName) && NamesFit(fileName, |st.nodes|)
    requires LongSized(st.nodes) && HasFragments(st.nodes, fileName)
    ensures Writable(fileName)
    ensures RecevoirStep(st, WriteUtf(fileName)) ==
            Step(st.(directory := st.directory - {fileName}), FileReply(Concat(StoredFragments(st.nodes, fileName))))
  {
    ReadWriteUtfAlone(fileName);
    AssembleIffAllFragments(st.nodes, fileName);
  }

  /**
   * A download of a file some node lacks a fragment of: the client gets
   * "Fichier introuvable", the nodes are untouched, and the bytes staged
   * before the gap stay in the coordinator's directory under the file's name.
   */
  lemma RecevoirMissing(st: State, fileName: string)
    requires st.hasDirectory && PlainFileName(fileName) && NamesFit(fileName, |st.nodes|)
    requires LongSized(st.nodes) && !HasFragments(st.nodes, fileName)
    ensures Writable(fileName)
    ensures var r := RecevoirStep(st, WriteUtf(fileName));
      && r.reply == WriteUtf(NotFound())
      && r.state.nodes == st.nodes && r.state.hasDirectory
      && fileName in r.state.directory && r.state.directory - {fileName} == st.directory - {fileName}
  {
    ReadWriteUtfAlone(fileName);
    AssembleIffAllFragments(st.nodes, fileName);
    var a := AssembleFrom(st.nodes, fileName, 0, []);
    RecevoirMissingStep(st, WriteUtf(fileName), fileName);
    RestageKeepsOthers(st.directory, fileName, a.staged);
  }

  lemma RecevoirMissingStep(st: State, args: Bytes, fileName: string)
    requires ReadUtf(args) == Some((fileName, [])) && st.hasDirectory && PlainFileName(fileName)
    requires AssembleFrom(st.nodes, fileName, 0, []).Missing?
    ensures RecevoirStep(st, args) ==
            Step(st.(directory := st.directory[fileName := AssembleFrom(st.nodes, fileName, 0, []).staged]), WriteUtf(NotFound()))
  {
  }

  lemma RestageKeepsOthers(d: Directory, fileName: string, staged: Bytes)
    ensures fileName in d[fileName := staged] && d[fileName := staged] - {fileName} == d - {fileName}
  {
  }

  /**
   * A download the staging file cannot be opened for (a name that is a
   * directory or reaches into one, or a server directory that was deleted)
   * ends at once: no answer, no change.
   */
  lemma RecevoirRefused(st: State, fileName: string)
    requires IsWireName(fileName) && (!st.hasDirectory || !PlainFileName(fileName))
    ensures Writable(fileName)
    ensures RecevoirStep(st, WriteUtf(fileName)) == Step(st, [])
  {
    ReadWriteUtfAlone(fileName);
  }

  /**
   * The system's promise end to end: ENVOYER then RECEVOIR of the same
   * name, on N >= 1 nodes, gives the client back exactly the bytes it sent,
   * and the coordinator's directory holds no copy of the file afterwards.
   */
  lemma UploadThenDownload(st: State, fileName: string, data: Bytes, listing: seq<string>)
    requires WireNames(st.directory) && Enumerates(listing, st.directory) && st.hasDirectory
    requires |st.nodes| >= 1 && PlainFileName(fileName) && NamesFit(fileName, |st.nodes|)
    requires |data| <= LONG_MAX && LongSized(st.nodes)
    ensures Writable(fileName)
    ensures var up := ClientStep(st, EnvoyerRequest(fileName, data), listing);
      && up.reply == WriteUtf(Ok()) && up.state.directory == st.directory
      && var down := ClientStep(up.state, RecevoirRequest(fileName), listing);
         && down.reply == FileReply(data)
         && down.state == State(st.directory - {fileName}, true, up.state.nodes)
  {
    ClientUpload(st, fileName, data, listing);
    var up := ClientStep(st, EnvoyerRequest(fileName, data), listing);
    UploadedFragments(st.nodes, up.state.nodes, fileName, data);
    ClientDownload(up.state, fileName, data, listing);
  }

  /** ENVOYER as handleClient receives it: the fragments are stored on the nodes and "OK" is answered. */
  lemma ClientUpload(st: State, fileName: string, data: Bytes, listing: seq<string>)
    requires WireNames(st.directory) && Enumerates(listing, st.directory)
    requires |st.nodes| >= 1 && NamesFit(fileName, |st.nodes|) && |data| <= LONG_MAX
    ensures Writable(fileName)
    ensures var up := ClientStep(st, EnvoyerRequest(fileName, data), listing);
      && up.reply == WriteUtf(Ok())
      && up.state == st.(nodes := up.state.nodes) && |up.state.nodes| == |st.nodes|
      && forall j :: 0 <= j < |st.nodes| ==>
           up.state.nodes[j] == st.nodes[j][FragmentName(fileName, j) := Fragment(data, |st.nodes|, j)]
  {
    AsciiWritable(fileName);
    var args := WriteUtf(fileName) + WriteLong(|data|) + data;
    EnvoyerRequestSplit(fileName, data);
    Dispatch(st, Envoyer(), args, listing);
    EnvoyerStoresFragments(st, fileName, data);
  }

  /** RECEVOIR as handleClient receives it, when the nodes hold the fragments of `data`: the client gets `data` back. */
  lemma ClientDownload(st: State, fileName: string, data: Bytes, listing: seq<string>)
    requires WireNames(st.directory) && Enumerates(listing, st.directory) && st.hasDirectory
    requires |st.nodes| >= 1 && PlainFileName(fileName) && NamesFit(fileName, |st.nodes|)
    requires HasFragments(st.nodes, fileName) && LongSized(st.nodes)
    requires StoredFragments(st.nodes, fileName) == Fragments(data, |st.nodes|)
    ensures Writable(fileName)
    ensures ClientStep(st, RecevoirRequest(fileName), listing) ==
            Step(st.(directory := st.directory - {fileName}), FileReply(data))
  {
    AsciiWritable(fileName);
    Dispatch(st, Recevoir(), WriteUtf(fileName), listing);
    ConcatFragments(data, |st.nodes|);
    RecevoirDelivers(st, fileName);
  }

  lemma EnvoyerRequestSplit(fileName: string, data: Bytes)
    requires Writable(fileName)
    ensures EnvoyerRequest(fileName, data) == WriteUtf(Envoyer()) + (WriteUtf(fileName) + WriteLong(|data|) + data)
  {
  }

  // ---------------------------------------------------------------- SUPPRIMER

  /** Whether deleteFile's File.exists() && File.delete() succeeds for this name. */
  predicate DeleteSucceeds(st: State, fileName: string) {
    st.hasDirectory && (fileName in st.directory || (fileName == "" && st.directory == map[]))
  }

  /**
   * SUPPRIMER answers success exactly when the entry exists and can be
   * deleted (the three lemmas below cover every case), removes it from the
   * coordinator's directory only (the empty name removing the empty
   * directory itself), and leaves every fragment on the storage nodes.
   */
  lemma SupprimerRemovesDirectory(st: State)
    requires st.hasDirectory && st.directory == map[]
    ensures Writable("")
    ensures SupprimerStep(st, WriteUtf("")) == Step(st.(hasDirectory := false), WriteUtf(Deleted()))
  {
    ReadWriteUtfAlone("");
  }

  lemma SupprimerRemovesEntry(st: State, fileName: string)
    requires IsWireName(fileName) && st.hasDirectory && fileName in st.directory
    ensures Writable(fileName)
    ensures SupprimerStep(st, WriteUtf(fileName)) == Step(st.(directory := st.directory - {fileName}), WriteUtf(Deleted()))
  {
    ReadWriteUtfAlone(fileName);
  }

  lemma SupprimerFails(st: State, fileName: string)
    requires IsWireName(fileName) && !DeleteSucceeds(st, fileName)
    ensures Writable(fileName)
    ensures SupprimerStep(st, WriteUtf(fileName)) == Step(st, WriteUtf(DeleteFailed()))
  {
    ReadWriteUtfAlone(fileName);
  }

  /**
   * Deleting a file on the coordinator does not delete its fragments: a
   * download afterwards answers as it would have before.
   */
  lemma DownloadSurvivesDelete(st: State, fileName: string, other: string)
    requires IsWireName(fileName) && IsWireName(other) && fileName != ""
    ensures Writable(fileName) && Writable(other)
    ensures var after := SupprimerStep(st, WriteUtf(fileName)).state;
      RecevoirStep(after, WriteUtf(other)).reply == RecevoirStep(st, WriteUtf(other)).reply
  {
    ReadWriteUtfAlone(other);
    if st.hasDirectory && fileName in st.directory {
      SupprimerRemovesEntry(st, fileName);
    } else {
      SupprimerFails(st, fileName);
    }
    var after := SupprimerStep(st, WriteUtf(fileName)).state;
    RecevoirReplyIgnoresDirectory(after, st, WriteUtf(other));
  }

  /** What RECEVOIR answers depends on the nodes and on whether the server directory exists, not on its entries. */
  lemma RecevoirReplyIgnoresDirectory(st1: State, st2: State, args: Bytes)
    requires st1.nodes == st2.nodes && st1.hasDirectory == st2.hasDirectory
    ensures RecevoirStep(st1, args).reply == RecevoirStep(st2, args).reply
  {
  }

  // ---------------------------------------------------------------- LISTER

  /** Every entry of the listing is a non-empty wire string. */
  predicate ListableNames(listing: seq<string>) {
    forall k :: 0 <= k < |listing| ==> IsWireName(listing[k]) && Writable(listing[k]) && listing[k] != ""
  }

  lemma {:induction false} NoTerminator(listing: seq<string>)
    requires ListableNames(listing)
    ensures ReadUntilEmpty(WriteUtfs(listing)) == None
  {
    if listing != [] {
      ReadWriteUtf(listing[0], WriteUtfs(listing[1..]));
      NoTerminator(listing[1..]);
    }
  }

  lemma {:induction false} WithTerminator(listing: seq<string>)
    requires ListableNames(listing)
    ensures Writable("")
    ensures ReadUntilEmpty(WriteUtfs(listing) + WriteUtf("")) == Some(listing)
  {
    ReadWriteUtfAlone("");
    if listing == [] {
      assert WriteUtfs(listing) + WriteUtf("") == WriteUtf("");
    } else {
      WithTerminator(listing[1..]);
      WithTerminatorStep(listing, WriteUtf(""));
    }
  }

  lemma WithTerminatorStep(listing: seq<string>, t: Bytes)
    requires ListableNames(listing) && listing != []
    requires ReadUntilEmpty(WriteUtfs(listing[1..]) + t) == Some(listing[1..])
    ensures ReadUntilEmpty(WriteUtfs(listing) + t) == Some(listing)
  {
    var rest := WriteUtfs(listing[1..]) + t;
    WriteUtfsFirst(listing, t);
    ReadWriteUtf(listing[0], rest);
    ReadUntilEmptyStep(WriteUtfs(listing) + t, listing[0], rest, listing[1..]);
    FirstAndRest(listing);
  }

  lemma ReadUntilEmptyStep(b: Bytes, s: string, rest: Bytes, more: seq<string>)
    requires ReadUtf(b) == Some((s, rest)) && s != "" && ReadUntilEmpty(rest) == Some(more)
    ensures ReadUntilEmpty(b) == Some([s] + more)
  {
  }

  /**
   * LISTER on a non-empty directory answers "OK" and every name once, in
   * the file system's order, with no empty string after them: the client,
   * which reads names until an empty one, reaches the end of the stream
   * instead of the end of the listing.
   */
  lemma ListingHasNoTerminator(st: State, listing: seq<string>)
    requires WireNames(st.directory) && Enumerates(listing, st.directory) && st.hasDirectory && listing != []
    ensures Writable(Lister())
    ensures var r := ClientStep(st, WriteUtf(Lister()), listing);
      && r.state == st
      && ReadUtf(r.reply).Some? && ReadUtf(r.reply).value.0 == Ok()
      && ReadUtfs(ReadUtf(r.reply).value.1) == Some(listing)
      && ReadUntilEmpty(ReadUtf(r.reply).value.1) == None
  {
    ListerAnswersListing(st, listing);
    ListReplyHasNoTerminator(listing);
  }

  /** LISTER reaches listFiles, which answers with the directory's listing and changes nothing. */
  lemma ListerAnswersListing(st: State, listing: seq<string>)
    requires WireNames(st.directory) && Enumerates(listing, st.directory) && st.hasDirectory
    ensures Writable(Lister())
    ensures ClientStep(st, WriteUtf(Lister()), listing) == Step(st, ListReply(listing))
  {
    WordsAreWireNames();
    ReadWriteUtfAlone(Lister());
    ListerDispatch(st, WriteUtf(Lister()), listing);
  }

  /**
   * LISTER on an empty server directory, or on one that was deleted,
   * answers "Aucun fichier trouvé." and changes nothing.
   */
  lemma ListerWithoutFiles(st: State, listing: seq<string>)
    requires WireNames(st.directory) && Enumerates(listing, st.directory)
    requires !st.hasDirectory || st.directory == map[]
    ensures Writable(Lister()) && Writable(NoFiles())
    ensures ClientStep(st, WriteUtf(Lister()), listing) == Step(st, WriteUtf(NoFiles()))
  {
    WordsAreWireNames();
    ReadWriteUtfAlone(Lister());
    ListerEmptyDispatch(st, WriteUtf(Lister()), listing);
    EmptyListReply();
  }

  lemma ListerEmptyDispatch(st: State, request: Bytes, listing: seq<string>)
    requires WireNames(st.directory) && Enumerates(listing, st.directory)
    requires !st.hasDirectory || st.directory == map[]
    requires ReadUtf(request) == Some((Lister(), []))
    ensures ClientStep(st, request, listing) == Step(st, ListReply([]))
  {
    CommandWords();
    assert |listing| > 0 ==> listing[0] in st.directory;
  }

  /** With no entry to list, listFiles answers only "Aucun fichier trouvé.". */
  lemma EmptyListReply()
    ensures Writable(NoFiles()) && ListReply([]) == WriteUtf(NoFiles())
  {
  }

  lemma ListerDispatch(st: State, request: Bytes, listing: seq<string>)
    requires WireNames(st.directory) && Enumerates(listing, st.directory) && st.hasDirectory
    requires ReadUtf(request) == Some((Lister(), []))
    ensures ClientStep(st, request, listing) == Step(st, ListReply(listing))
  {
    CommandWords();
  }

  /** A non-empty listing reply: "OK", then every name, then nothing. */
  lemma ListReplyHasNoTerminator(listing: seq<string>)
    requires listing != [] && forall k :: 0 <= k < |listing| ==> IsWireName(listing[k]) && listing[k] != ""
    ensures var r := ListReply(listing);
      && ReadUtf(r).Some? && ReadUtf(r).value.0 == Ok()
      && ReadUtfs(ReadUtf(r).value.1) == Some(listing)
      && ReadUntilEmpty(ReadUtf(r).value.1) == None
  {
    forall k | 0 <= k < |listing| ensures IsWireName(listing[k]) && Writable(listing[k]) && listing[k] != "" {
      AsciiWritable(listing[k]);
    }
    WordsAreWireNames();
    ReadWriteUtfs(listing);
    ReadWriteUtf(Ok(), WriteUtfs(listing));
    NoTerminator(listing);
  }
}
