/**
 * Properties of the protocol model: what a storage node does with each
 * request, that distributing a file and assembling it again gives back the
 * same bytes, that uploads of different files do not disturb each other,
 * what the client sees for each command, and how the source's assembleFile
 * misreads a node's reply.
 */
module ProtocolProofs {
  import opened Sequences
  import opened Wrappers
  import opened JavaString
  import opened DataStreams
  import opened ChunkedIO
  import opened Fragmentation
  import opened Protocol

  // ---------------------------------------------------------------- storage node

  /** The protocol's words travel as wire strings. */
  lemma WordsAreWireNames()
    ensures IsWireName(Store()) && IsWireName(Retrieve())
    ensures IsWireName(Envoyer()) && IsWireName(Recevoir()) && IsWireName(Lister()) && IsWireName(Supprimer())
    ensures IsWireName(Ok()) && IsWireName(NotFound()) && IsWireName(UnknownCommand())
    ensures |Ok()| == 2 && |NotFound()| == 19
  {
  }

  /**
   * STORE replaces the named fragment by the bytes received (truncated to the
   * declared size) and answers nothing; the connection fails exactly when
   * fewer bytes than declared arrive.
   */
  lemma NodeStoreReplaces(files: Directory, name: string, size: int, payload: Bytes)
    requires IsWireName(name) && PlainFileName(name)
    requires LONG_MIN <= size <= LONG_MAX
    ensures Writable(name)
    ensures var c := Transfer(payload, size);
      SubServerStep(files, StoreHeader(name, size) + payload) == NodeStep(files[name := c.data], [], !c.complete)
  {
    StoreHeaderReadsBack(name, size, payload);
    StoreStep(files, StoreHeader(name, size) + payload, name, size, payload);
  }

  /** STORE of a name that is a directory or reaches into a subdirectory fails before a byte is stored. */
  lemma NodeStoreRefuses(files: Directory, name: string, size: int, payload: Bytes)
    requires IsWireName(name) && !PlainFileName(name)
    requires LONG_MIN <= size <= LONG_MAX
    ensures Writable(name)
    ensures SubServerStep(files, StoreHeader(name, size) + payload) == NodeStep(files, [], true)
  {
    StoreHeaderReadsBack(name, size, payload);
    StoreStep(files, StoreHeader(name, size) + payload, name, size, payload);
  }

  /** The node reads back the command, the name and the size that distributeFile wrote. */
  lemma StoreHeaderReadsBack(name: string, size: int, payload: Bytes)
    requires IsWireName(name) && LONG_MIN <= size <= LONG_MAX
    ensures Writable(name)
    ensures var afterCommand := WriteUtf(name) + WriteLong(size) + payload;
      && ReadUtf(StoreHeader(name, size) + payload) == Some((Store(), afterCommand))
      && ReadUtf(afterCommand) == Some((name, WriteLong(size) + payload))
      && ReadLong(WriteLong(size) + payload) == Some((size, payload))
  {
    WordsAreWireNames();
    HeaderReadsBack(Store(), name, size, payload);
  }

  /** Two strings and a long, as writeUTF, writeUTF and writeLong put them, read back in order. */
  lemma HeaderReadsBack(command: string, name: string, size: int, payload: Bytes)
    requires IsWireName(command) && IsWireName(name) && LONG_MIN <= size <= LONG_MAX
    ensures Writable(command) && Writable(name)
    ensures var afterCommand := WriteUtf(name) + WriteLong(size) + payload;
      && ReadUtf(WriteUtf(command) + WriteUtf(name) + WriteLong(size) + payload) == Some((command, afterCommand))
      && ReadUtf(afterCommand) == Some((name, WriteLong(size) + payload))
      && ReadLong(WriteLong(size) + payload) == Some((size, payload))
  {
    AsciiWritable(command);
    AsciiWritable(name);
    var afterCommand := WriteUtf(name) + WriteLong(size) + payload;
    var afterName := WriteLong(size) + payload;
    assert WriteUtf(command) + WriteUtf(name) + WriteLong(size) + payload == WriteUtf(command) + afterCommand;
    assert afterCommand == WriteUtf(name) + afterName;
    ReadWriteUtf(command, afterCommand);
    ReadWriteUtf(name, afterName);
    ReadWriteLong(size, payload);
  }

  lemma StoreStep(files: Directory, request: Bytes, name: string, size: int, payload: Bytes)
    requires Writable(name)
    requires ReadUtf(request) == Some((Store(), WriteUtf(name) + WriteLong(size) + payload))
    requires ReadUtf(WriteUtf(name) + WriteLong(size) + payload) == Some((name, WriteLong(size) + payload))
    requires ReadLong(WriteLong(size) + payload) == Some((size, payload))
    ensures !PlainFileName(name) ==> SubServerStep(files, request) == NodeStep(files, [], true)
    ensures PlainFileName(name) ==> var c := Transfer(payload, size);
      SubServerStep(files, request) == NodeStep(files[name := c.data], [], !c.complete)
  {
    assert EqualsIgnoreCase(Store(), Store());
  }

  /** RETRIEVE answers "OK", the length and the bytes of a stored fragment, or "Fichier introuvable"; the node's files stay as they are. */
  lemma NodeRetrieve(files: Directory, name: string)
    requires IsWireName(name) && !DirectoryAlias(name)
    ensures Writable(name)
    ensures SubServerStep(files, RetrieveRequest(name)) ==
            NodeStep(files, if name in files then FileReply(files[name]) else WriteUtf(NotFound()), false)
  {
    WordsAreWireNames();
    ReadWriteUtfAlone(name);
    var request := RetrieveRequest(name);
    ReadWriteUtf(Retrieve(), WriteUtf(name));
    assert ReadUtf(request) == Some((Retrieve(), WriteUtf(name)));
    assert !EqualsIgnoreCase(Store(), Retrieve());
    assert EqualsIgnoreCase(Retrieve(), Retrieve());
  }

  /** A command other than STORE and RETRIEVE (in any letter case) is dropped: no reply, no change. */
  lemma NodeIgnoresOtherCommands(files: Directory, command: string, rest: Bytes)
    requires IsWireName(command)
    requires !EqualsIgnoreCase(Store(), command) && !EqualsIgnoreCase(Retrieve(), command)
    ensures Writable(command)
    ensures SubServerStep(files, WriteUtf(command) + rest) == NodeStep(files, [], false)
  {
    ReadWriteUtf(command, rest);
  }

  /** What the receiver of sendFile or sendFileInChunks reads: "OK", then the length, then exactly the content. */
  lemma ReadFileReply(content: Bytes)
    requires |content| <= LONG_MAX
    ensures ReadUtf(FileReply(content)) == Some((Ok(), WriteLong(|content|) + content))
    ensures ReadLong(WriteLong(|content|) + content) == Some((|content|, content))
    ensures Transfer(content, |content|) == Copy(content, [], true)
  {
    ReadWriteUtf(Ok(), WriteLong(|content|) + content);
    ReadWriteLong(|content|, content);
    assert FileReply(content) == WriteUtf(Ok()) + (WriteLong(|content|) + content);
  }

  // ---------------------------------------------------------------- the storage node's accept loop

  /** Every connection but the last ends without an exception when served one after another. */
  predicate AllButLastSucceed(files: Directory, connections: seq<Bytes>)
    decreases |connections|
  {
    |connections| <= 1 ||
    (var step := SubServerStep(files, connections[0]);
     !step.failed && AllButLastSucceed(step.files, connections[1..]))
  }

  /**
   * The accept loop as written answers a prefix of what the intended loop
   * answers, and it answers every connection, ending in the same
   * directory, exactly when no connection before the last one fails.
   */
  lemma {:induction false} ServeAsWrittenIsPrefix(files: Directory, connections: seq<Bytes>)
    ensures var w := ServeAsWritten(files, connections);
      var s := Serve(files, connections);
      && w.1 == s.1[..|w.1|]
      && (|w.1| == |connections| <==> AllButLastSucceed(files, connections))
      && (AllButLastSucceed(files, connections) ==> w == s)
    decreases |connections|
  {
    if connections == [] {
    } else if SubServerStep(files, connections[0]).failed {
      ServeFailsFirst(files, connections);
    } else {
      var step := SubServerStep(files, connections[0]);
      ServeAsWrittenIsPrefix(step.files, connections[1..]);
      ServeSucceedsFirst(files, connections);
    }
  }

  /** The statement of ServeAsWrittenIsPrefix for one node state and one list of connections. */
  predicate AnswersPrefix(files: Directory, connections: seq<Bytes>) {
    var w := ServeAsWritten(files, connections);
    var s := Serve(files, connections);
    && w.1 == s.1[..|w.1|]
    && (|w.1| == |connections| <==> AllButLastSucceed(files, connections))
    && (AllButLastSucceed(files, connections) ==> w == s)
  }

  lemma ServeFailsFirst(files: Directory, connections: seq<Bytes>)
    requires connections != [] && SubServerStep(files, connections[0]).failed
    ensures AnswersPrefix(files, connections)
  {
    var step := SubServerStep(files, connections[0]);
    var s := Serve(files, connections);
    var rest := Serve(step.files, connections[1..]);
    assert s == (rest.0, [step.reply] + rest.1);
    assert [step.reply] == s.1[..1];
    if |connections| == 1 {
      assert connections[1..] == [];
      assert rest == (step.files, []);
      assert [step.reply] + rest.1 == [step.reply];
    }
  }

  lemma ServeSucceedsFirst(files: Directory, connections: seq<Bytes>)
    requires connections != [] && !SubServerStep(files, connections[0]).failed
    requires AnswersPrefix(SubServerStep(files, connections[0]).files, connections[1..])
    ensures AnswersPrefix(files, connections)
  {
    var step := SubServerStep(files, connections[0]);
    PrefixAfterFirst(step.reply, ServeAsWritten(step.files, connections[1..]).1, Serve(step.files, connections[1..]).1);
  }

  /**
   * As written, an upload cut short (fewer bytes than declared) stops the
   * node: the partial fragment stays on disk and no later connection is
   * answered.
   */
  lemma ServeAsWrittenStopsAtShortUpload(files: Directory, name: string, size: int, payload: Bytes, later: seq<Bytes>)
    requires IsWireName(name) && PlainFileName(name) && |payload| < size <= LONG_MAX
    ensures Writable(name)
    ensures ServeAsWritten(files, [StoreHeader(name, size) + payload] + later) == (files[name := payload], [[]])
  {
    AsciiWritable(name);
    var request := StoreHeader(name, size) + payload;
    NodeStoreReplaces(files, name, size, payload);
    assert ([request] + later)[0] == request;
  }

  /**
   * As intended, the node drops the short upload, keeping its partial
   * fragment, and serves the following connections as usual.
   */
  lemma ServeGoesOnAfterShortUpload(files: Directory, name: string, size: int, payload: Bytes, later: seq<Bytes>)
    requires IsWireName(name) && PlainFileName(name) && |payload| < size <= LONG_MAX
    ensures Writable(name)
    ensures var rest := Serve(files[name := payload], later);
      Serve(files, [StoreHeader(name, size) + payload] + later) == (rest.0, [[]] + rest.1)
  {
    AsciiWritable(name);
    var request := StoreHeader(name, size) + payload;
    NodeStoreReplaces(files, name, size, payload);
    assert ([request] + later)[0] == request;
    assert ([request] + later)[1..] == later;
  }

  // ---------------------------------------------------------------- distribution

  /** Every node of `nodes` from index `from` on, with fragment j of `data` stored under its name. */
  function WithFragments(nodes: seq<Directory>, fileName: string, data: Bytes, from: nat): (r: seq<Directory>)
    requires |nodes| >= 1
    ensures |r| == |nodes|
    ensures forall j :: from <= j < |nodes| ==> r[j] == nodes[j][FragmentName(fileName, j) := Fragment(data, |nodes|, j)]
  {
    seq(|nodes|, j requires 0 <= j < |nodes| =>
      if j < from then nodes[j] else nodes[j][FragmentName(fileName, j) := Fragment(data, |nodes|, j)])
  }

  /** Every round's byte count is a long, as writeLong sends it. */
  predicate LongPlan(plan: seq<int>) {
    forall k :: 0 <= k < |plan| ==> LONG_MIN <= plan[k] <= LONG_MAX
  }

  lemma PlanIsLong(fileSize: int, n: nat)
    requires n >= 1 && LONG_MIN <= fileSize <= LONG_MAX
    ensures LongPlan(PlanSizes(fileSize, n))
  {
    forall k | 0 <= k < n ensures LONG_MIN <= PlanSizes(fileSize, n)[k] <= LONG_MAX {
      FragmentLengthIsLong(fileSize, n, k);
    }
  }

  /**
   * One round of distributeFile's loop for a file name without '/': node i
   * stores what arrived of fragment i, and the loop goes on only if all of
   * it arrived.
   */
  lemma DistributeStep(nodes: seq<Directory>, fileName: string, plan: seq<int>, input: Bytes, i: nat)
    requires |plan| == |nodes| && i < |nodes| && IsAscii(fileName) && '/' !in fileName && LongPlan(plan)
    ensures var name := FragmentName(fileName, i);
      var c := Transfer(input, plan[i]);
      var stored := nodes[i := nodes[i][name := c.data]];
      DistributeFrom(nodes, fileName, plan, input, i) ==
        if !Writable(name) then Distribution(nodes, false)
        else if c.complete then DistributeFrom(stored, fileName, plan, c.rest, i + 1)
        else Distribution(stored, false)
  {
    var name := FragmentName(fileName, i);
    if Writable(name) {
      NamesAreAscii(fileName, i);
      assert |EncodeChars(name)| <= UTF_MAX;
      var c := Transfer(input, plan[i]);
      FragmentNamePlain(fileName, i);
      NodeStoreReplaces(nodes[i], name, plan[i], c.data);
      assert Transfer(c.data, plan[i]).data == c.data;
    }
  }

  /**
   * One round for a file name with '/': the node cannot open the fragment
   * and stores nothing, while the coordinator sends on.
   */
  lemma DistributeStepRefused(nodes: seq<Directory>, fileName: string, plan: seq<int>, input: Bytes, i: nat)
    requires |plan| == |nodes| && i < |nodes| && IsAscii(fileName) && '/' in fileName && LongPlan(plan)
    ensures var name := FragmentName(fileName, i);
      var c := Transfer(input, plan[i]);
      DistributeFrom(nodes, fileName, plan, input, i) ==
        if !Writable(name) then Distribution(nodes, false)
        else if c.complete then DistributeFrom(nodes, fileName, plan, c.rest, i + 1)
        else Distribution(nodes, false)
  {
    var name := FragmentName(fileName, i);
    if Writable(name) {
      NamesAreAscii(fileName, i);
      assert |EncodeChars(name)| <= UTF_MAX;
      var c := Transfer(input, plan[i]);
      FragmentNamePlain(fileName, i);
      NodeStoreRefuses(nodes[i], name, plan[i], c.data);
      DistributeRound(nodes, fileName, plan, input, i, c);
      UpdateSame(nodes, i);
    }
  }

  /** A round of distributeFile whose fragment name can be sent: node i stores what was copied of fragment i. */
  lemma DistributeRound(nodes: seq<Directory>, fileName: string, plan: seq<int>, input: Bytes, i: nat, c: Copy)
    requires |plan| == |nodes| && i < |nodes| && Writable(FragmentName(fileName, i)) && c == Transfer(input, plan[i])
    ensures var stored := nodes[i := SubServerStep(nodes[i], StoreHeader(FragmentName(fileName, i), plan[i]) + c.data).files];
      DistributeFrom(nodes, fileName, plan, input, i) ==
        if c.complete then DistributeFrom(stored, fileName, plan, c.rest, i + 1) else Distribution(stored, false)
  {
  }


  /** An upload whose file name reaches into a subdirectory leaves every node as it was. */
  lemma {:induction false} DistributeRefusedStoresNothing(nodes: seq<Directory>, fileName: string, plan: seq<int>, input: Bytes, i: nat)
    requires |plan| == |nodes| && i <= |nodes| && IsAscii(fileName) && '/' in fileName && LongPlan(plan)
    ensures DistributeFrom(nodes, fileName, plan, input, i).nodes == nodes
    decreases |nodes| - i
  {
    if i < |nodes| {
      var c := Transfer(input, plan[i]);
      if Writable(FragmentName(fileName, i)) && c.complete {
        RefusedRoundGoesOn(nodes, fileName, plan, input, i);
        DistributeRefusedStoresNothing(nodes, fileName, plan, c.rest, i + 1);
      } else {
        RefusedRoundStops(nodes, fileName, plan, input, i);
      }
    }
  }

  /** A refused round whose fragment arrived whole goes on to the next node with every node as it was. */
  lemma RefusedRoundGoesOn(nodes: seq<Directory>, fileName: string, plan: seq<int>, input: Bytes, i: nat)
    requires |plan| == |nodes| && i < |nodes| && IsAscii(fileName) && '/' in fileName && LongPlan(plan)
    requires Writable(FragmentName(fileName, i)) && Transfer(input, plan[i]).complete
    ensures DistributeFrom(nodes, fileName, plan, input, i) == DistributeFrom(nodes, fileName, plan, Transfer(input, plan[i]).rest, i + 1)
  {
    DistributeStepRefused(nodes, fileName, plan, input, i);
  }

  /** A refused round that cannot go on ends the upload with every node as it was. */
  lemma RefusedRoundStops(nodes: seq<Directory>, fileName: string, plan: seq<int>, input: Bytes, i: nat)
    requires |plan| == |nodes| && i < |nodes| && IsAscii(fileName) && '/' in fileName && LongPlan(plan)
    requires !Writable(FragmentName(fileName, i)) || !Transfer(input, plan[i]).complete
    ensures DistributeFrom(nodes, fileName, plan, input, i) == Distribution(nodes, false)
  {
    DistributeStepRefused(nodes, fileName, plan, input, i);
  }

  /** distributeFile reaches its end only if the client sent at least every byte the plan declares from round i on. */
  lemma {:induction false} DistributeCompleteReadsAll(nodes: seq<Directory>, fileName: string, plan: seq<int>, input: Bytes, i: nat)
    requires |plan| == |nodes| && i <= |nodes| && IsAscii(fileName) && LongPlan(plan)
    requires forall k :: 0 <= k < |plan| ==> plan[k] >= 0
    ensures DistributeFrom(nodes, fileName, plan, input, i).complete ==> SumInts(plan[i..]) <= |input|
    decreases |nodes| - i
  {
    if i < |nodes| {
      var name := FragmentName(fileName, i);
      var c := Transfer(input, plan[i]);
      if '/' in fileName {
        DistributeStepRefused(nodes, fileName, plan, input, i);
        if Writable(name) && c.complete {
          DistributeCompleteReadsAll(nodes, fileName, plan, c.rest, i + 1);
        }
      } else {
        DistributeStep(nodes, fileName, plan, input, i);
        if Writable(name) && c.complete {
          DistributeCompleteReadsAll(nodes[i := nodes[i][name := c.data]], fileName, plan, c.rest, i + 1);
        }
      }
      SumIntsFirst(plan[i..]);
      assert plan[i..][1..] == plan[i + 1..];
    }
  }

  lemma {:induction false} DistributeFromStores(nodes: seq<Directory>, fileName: string, data: Bytes, input: Bytes, i: nat)
    requires 1 <= |nodes| && i <= |nodes|
    requires NamesFit(fileName, |nodes|) && |data| <= LONG_MAX
    requires i < |nodes| ==> input == data[FragmentStart(|data|, |nodes|, i)..]
    ensures DistributeFrom(nodes, fileName, PlanSizes(|data|, |nodes|), input, i) == Distribution(WithFragments(nodes, fileName, data, i), true)
    decreases |nodes| - i
  {
    var n := |nodes|;
    var plan := PlanSizes(|data|, n);
    if i == n {
      assert WithFragments(nodes, fileName, data, i) == nodes;
    } else {
      var name := FragmentName(fileName, i);
      assert IsWireName(name);
      AsciiWritable(name);
      var c := Transfer(input, plan[i]);
      FragmentTransfer(data, n, i, input);
      PlanIsLong(|data|, n);
      DistributeStep(nodes, fileName, plan, input, i);
      var stored := nodes[i := nodes[i][name := c.data]];
      DistributeFromStores(stored, fileName, data, c.rest, i + 1);
      WithFragmentsStep(nodes, fileName, data, i);
    }
  }

  lemma WithFragmentsStep(nodes: seq<Directory>, fileName: string, data: Bytes, i: nat)
    requires i < |nodes|
    ensures var stored := nodes[i := nodes[i][FragmentName(fileName, i) := Fragment(data, |nodes|, i)]];
      WithFragments(stored, fileName, data, i + 1) == WithFragments(nodes, fileName, data, i)
  {
  }

  /** Reading fragment i's declared size from the rest of the file's bytes yields exactly fragment i and leaves the next fragments. */
  lemma FragmentTransfer(data: Bytes, n: nat, i: nat, input: Bytes)
    requires 1 <= n && i < n
    requires input == data[FragmentStart(|data|, n, i)..]
    ensures var c := Transfer(input, FragmentLength(|data|, n, i));
      && c.complete && c.data == Fragment(data, n, i)
      && (i < n - 1 ==> c.rest == data[FragmentStart(|data|, n, i + 1)..])
  {
    var start := FragmentStart(|data|, n, i);
    var len := FragmentLength(|data|, n, i);
    FragmentSlices(data, n, i);
    assert input[..len] == data[start..start + len];
    assert input[len..] == data[start + len..];
  }

  /**
   * distributeFile, given the client's bytes in full, reaches the end and
   * leaves node j holding fragment j under the name `fileName.partj`,
   * replacing any earlier fragment of that name, with every other file of
   * every node as it was.
   */
  lemma {:induction false} DistributeStoresFragments(nodes: seq<Directory>, fileName: string, data: Bytes)
    requires |nodes| >= 1 && NamesFit(fileName, |nodes|) && |data| <= LONG_MAX
    ensures var d := DistributeFrom(nodes, fileName, PlanSizes(|data|, |nodes|), data, 0);
      && d.complete
      && forall j :: 0 <= j < |nodes| ==> d.nodes[j] == nodes[j][FragmentName(fileName, j) := Fragment(data, |nodes|, j)]
  {
    assert FragmentStart(|data|, |nodes|, 0) == 0;
    assert data == data[0..];
    DistributeFromStores(nodes, fileName, data, data, 0);
  }

  /**
   * distributeFile with a client that sends fewer bytes than the plan
   * declares does not reach its end, and on every node only the file's own
   * fragment may have changed.
   */
  lemma DistributeCutShort(nodes: seq<Directory>, fileName: string, plan: seq<int>, data: Bytes)
    requires |plan| == |nodes| && IsAscii(fileName) && LongPlan(plan)
    requires (forall k :: 0 <= k < |plan| ==> plan[k] >= 0) && |data| < SumInts(plan)
    ensures var d := DistributeFrom(nodes, fileName, plan, data, 0);
      && !d.complete
      && forall j :: 0 <= j < |nodes| ==> d.nodes[j] - {FragmentName(fileName, j)} == nodes[j] - {FragmentName(fileName, j)}
  {
    assert plan[0..] == plan;
    DistributeCompleteReadsAll(nodes, fileName, plan, data, 0);
    DistributeTouchesOnlyFragments(nodes, fileName, plan, data);
  }

  /** On every node, an upload changes only the file's own fragment. */
  lemma DistributeTouchesOnlyFragments(nodes: seq<Directory>, fileName: string, plan: seq<int>, input: Bytes)
    requires |plan| == |nodes| && IsAscii(fileName) && LongPlan(plan)
    ensures var d := DistributeFrom(nodes, fileName, plan, input, 0);
      forall j :: 0 <= j < |nodes| ==> d.nodes[j] - {FragmentName(fileName, j)} == nodes[j] - {FragmentName(fileName, j)}
  {
    forall j | 0 <= j < |nodes|
      ensures DistributeFrom(nodes, fileName, plan, input, 0).nodes[j] - {FragmentName(fileName, j)} == nodes[j] - {FragmentName(fileName, j)}
    {
      DistributeTouchesOnlyItsFragments(nodes, fileName, plan, input, j);
    }
  }

  /** Whatever the declared sizes and the bytes that arrive, an upload writes on node j only its fragment j. */
  lemma DistributeTouchesOnlyItsFragments(nodes: seq<Directory>, fileName: string, plan: seq<int>, input: Bytes, j: nat)
    requires |plan| == |nodes| && j < |nodes| && IsAscii(fileName) && LongPlan(plan)
    ensures DistributeFrom(nodes, fileName, plan, input, 0).nodes[j] - {FragmentName(fileName, j)} == nodes[j] - {FragmentName(fileName, j)}
  {
    if '/' in fileName {
      DistributeRefusedStoresNothing(nodes, fileName, plan, input, 0);
    } else {
      DistributePlainTouchesOnlyItsFragments(nodes, fileName, plan, input, 0, j);
    }
  }

  lemma {:induction false} DistributePlainTouchesOnlyItsFragments(nodes: seq<Directory>, fileName: string, plan: seq<int>, input: Bytes, i: nat, j: nat)
    requires |plan| == |nodes| && i <= |nodes| && j < |nodes| && IsAscii(fileName) && '/' !in fileName && LongPlan(plan)
    ensures DistributeFrom(nodes, fileName, plan, input, i).nodes[j] - {FragmentName(fileName, j)} == nodes[j] - {FragmentName(fileName, j)}
    decreases |nodes| - i
  {
    if i < |nodes| {
      var name := FragmentName(fileName, i);
      var c := Transfer(input, plan[i]);
      var stored := nodes[i := nodes[i][name := c.data]];
      DistributeStep(nodes, fileName, plan, input, i);
      StoreOnlyItsFragment(nodes, fileName, i, j, c.data);
      if Writable(name) && c.complete {
        DistributePlainTouchesOnlyItsFragments(stored, fileName, plan, c.rest, i + 1, j);
      }
    }
  }

  lemma StoreOnlyItsFragment(nodes: seq<Directory>, fileName: string, i: nat, j: nat, data: Bytes)
    requires i < |nodes| && j < |nodes|
    ensures var stored := nodes[i := nodes[i][FragmentName(fileName, i) := data]];
      stored[j] - {FragmentName(fileName, j)} == nodes[j] - {FragmentName(fileName, j)}
  {
  }

  lemma NamesAreAscii(fileName: string, i: nat)
    requires IsAscii(fileName)
    ensures IsAscii(FragmentName(fileName, i))
  {
    var s := FragmentName(fileName, i);
    forall k | 0 <= k < |s| ensures 0 < s[k] as int < 0x80 {
      if k < |fileName| {
        assert s[k] == fileName[k];
      } else if k < |fileName| + 5 {
        assert s[k] == ".part"[k - |fileName|];
      } else {
        assert s[k] == Decimal(i)[k - |fileName| - 5];
      }
    }
  }

  // ---------------------------------------------------------------- assembly

  /** Every node holds its fragment of the file. */
  predicate HasFragments(nodes: seq<Directory>, fileName: string) {
    forall j :: 0 <= j < |nodes| ==> FragmentName(fileName, j) in nodes[j]
  }

  /** The fragments of the file as the nodes hold them, in node order. */
  function StoredFragments(nodes: seq<Directory>, fileName: string): (parts: seq<Bytes>)
    requires HasFragments(nodes, fileName)
    ensures |parts| == |nodes|
  {
    seq(|nodes|, j requires 0 <= j < |nodes| => nodes[j][FragmentName(fileName, j)])
  }

  /** No file on any node is longer than File.length can report. */
  predicate LongSized(nodes: seq<Directory>) {
    forall j, name :: 0 <= j < |nodes| && name in nodes[j] ==> |nodes[j][name]| <= LONG_MAX
  }

  /**
   * One round of assembleFile's loop: a fragment name writeUTF refuses
   * fails, a fragment the node lacks ends the assembly as missing, and a
   * fragment the node holds is appended whole before the next round.
   */
  lemma AssembleStep(nodes: seq<Directory>, fileName: string, i: nat, staged: Bytes)
    requires i < |nodes| && IsAscii(fileName)
    requires FragmentName(fileName, i) in nodes[i] ==> |nodes[i][FragmentName(fileName, i)]| <= LONG_MAX
    ensures var name := FragmentName(fileName, i);
      AssembleFrom(nodes, fileName, i, staged) ==
        if !Writable(name) then Failed(staged)
        else if name !in nodes[i] then Missing(staged)
        else AssembleFrom(nodes, fileName, i + 1, staged + nodes[i][name])
  {
    var name := FragmentName(fileName, i);
    if Writable(name) {
      NamesAreAscii(fileName, i);
      assert IsWireName(name);
      FragmentNamePlain(fileName, i);
      if name in nodes[i] {
        AssembleStepPresent(nodes, fileName, i, staged);
      } else {
        AssembleStepAbsent(nodes, fileName, i, staged);
      }
    }
  }

  lemma AssembleStepPresent(nodes: seq<Directory>, fileName: string, i: nat, staged: Bytes)
    requires i < |nodes| && IsWireName(FragmentName(fileName, i)) && !DirectoryAlias(FragmentName(fileName, i))
    requires FragmentName(fileName, i) in nodes[i] && |nodes[i][FragmentName(fileName, i)]| <= LONG_MAX
    ensures Writable(FragmentName(fileName, i))
    ensures AssembleFrom(nodes, fileName, i, staged) ==
            AssembleFrom(nodes, fileName, i + 1, staged + nodes[i][FragmentName(fileName, i)])
  {
    var name := FragmentName(fileName, i);
    NodeRetrieve(nodes[i], name);
    ReadFileReply(nodes[i][name]);
  }

  lemma AssembleStepAbsent(nodes: seq<Directory>, fileName: string, i: nat, staged: Bytes)
    requires i < |nodes| && IsWireName(FragmentName(fileName, i)) && !DirectoryAlias(FragmentName(fileName, i))
    requires FragmentName(fileName, i) !in nodes[i]
    ensures Writable(FragmentName(fileName, i))
    ensures AssembleFrom(nodes, fileName, i, staged) == Missing(staged)
  {
    NodeRetrieve(nodes[i], FragmentName(fileName, i));
    NotFoundReadsBack();
  }

  lemma {:induction false} AssembleFromCollects(nodes: seq<Directory>, fileName: string, i: nat)
    requires i <= |nodes| && NamesFit(fileName, |nodes|)
    requires HasFragments(nodes, fileName) && LongSized(nodes)
    ensures var parts := StoredFragments(nodes, fileName);
      AssembleFrom(nodes, fileName, i, Concat(parts[..i])) == Assembled(Concat(parts))
    decreases |nodes| - i
  {
    var parts := StoredFragments(nodes, fileName);
    if i == |nodes| {
      assert parts[..i] == parts;
    } else {
      var name := FragmentName(fileName, i);
      assert IsWireName(name);
      AsciiWritable(name);
      AssembleStep(nodes, fileName, i, Concat(parts[..i]));
      ConcatNext(parts, i);
      AssembleFromCollects(nodes, fileName, i + 1);
    }
  }

  lemma {:induction false} AssembleFromMissing(nodes: seq<Directory>, fileName: string, i: nat, staged: Bytes, missing: nat)
    requires i <= missing < |nodes| && NamesFit(fileName, |nodes|) && LongSized(nodes)
    requires FragmentName(fileName, missing) !in nodes[missing]
    ensures AssembleFrom(nodes, fileName, i, staged).Missing?
    decreases |nodes| - i
  {
    var name := FragmentName(fileName, i);
    assert IsWireName(name);
    AsciiWritable(name);
    AssembleStep(nodes, fileName, i, staged);
    if name in nodes[i] {
      assert i != missing;
      AssembleFromMissing(nodes, fileName, i + 1, staged + nodes[i][name], missing);
    } else {
      assert AssembleFrom(nodes, fileName, i, staged) == Missing(staged);
    }
  }

  /** The node's "Fichier introuvable" reads back as a status other than "OK". */
  lemma NotFoundReadsBack()
    ensures ReadUtf(WriteUtf(NotFound())) == Some((NotFound(), []))
    ensures NotFound() != Ok()
  {
    WordsAreWireNames();
    ReadWriteUtfAlone(NotFound());
  }

  lemma ReadWriteUtfAlone(s: string)
    requires IsWireName(s)
    ensures Writable(s) && ReadUtf(WriteUtf(s)) == Some((s, []))
  {
    ReadWriteUtf(s, []);
    assert WriteUtf(s) + [] == WriteUtf(s);
  }

  /**
   * assembleFile, reading each node's status before the length, delivers a
   * file exactly when every node holds its fragment, and the file is then
   * the fragments in node order; otherwise it reports the file missing.
   */
  lemma {:induction false} AssembleIffAllFragments(nodes: seq<Directory>, fileName: string)
    requires NamesFit(fileName, |nodes|) && LongSized(nodes)
    ensures AssembleFrom(nodes, fileName, 0, []).Assembled? <==> HasFragments(nodes, fileName)
    ensures HasFragments(nodes, fileName) ==>
      AssembleFrom(nodes, fileName, 0, []) == Assembled(Concat(StoredFragments(nodes, fileName)))
    ensures !HasFragments(nodes, fileName) ==> AssembleFrom(nodes, fileName, 0, []).Missing?
  {
    if HasFragments(nodes, fileName) {
      var parts := StoredFragments(nodes, fileName);
      assert parts[..0] == [];
      AssembleFromCollects(nodes, fileName, 0);
    } else {
      var missing :| 0 <= missing < |nodes| && FragmentName(fileName, missing) !in nodes[missing];
      AssembleFromMissing(nodes, fileName, 0, [], missing);
    }
  }

  /**
   * The round trip: distributing a file over N >= 1 nodes and assembling it
   * again gives back exactly the bytes the client sent.
   */
  lemma {:induction false} DistributeThenAssemble(nodes: seq<Directory>, fileName: string, data: Bytes)
    requires |nodes| >= 1 && NamesFit(fileName, |nodes|) && |data| <= LONG_MAX && LongSized(nodes)
    ensures var d := DistributeFrom(nodes, fileName, PlanSizes(|data|, |nodes|), data, 0);
      d.complete && AssembleFrom(d.nodes, fileName, 0, []) == Assembled(data)
  {
    var n := |nodes|;
    DistributeStoresFragments(nodes, fileName, data);
    var d := DistributeFrom(nodes, fileName, PlanSizes(|data|, n), data, 0);
    UploadedFragments(nodes, d.nodes, fileName, data);
    AssembleIffAllFragments(d.nodes, fileName);
    ConcatFragments(data, n);
  }

  /** Nodes that received every fragment of the file hold exactly those fragments, and still no file beyond a long's length. */
  lemma UploadedFragments(nodes: seq<Directory>, after: seq<Directory>, fileName: string, data: Bytes)
    requires |nodes| >= 1 && |after| == |nodes| && |data| <= LONG_MAX && LongSized(nodes)
    requires forall j :: 0 <= j < |nodes| ==> after[j] == nodes[j][FragmentName(fileName, j) := Fragment(data, |nodes|, j)]
    ensures HasFragments(after, fileName) && LongSized(after)
    ensures StoredFragments(after, fileName) == Fragments(data, |nodes|)
  {
    var n := |nodes|;
    forall j, name | 0 <= j < n && name in after[j] ensures |after[j][name]| <= LONG_MAX {
      FragmentLengthIsLong(|data|, n, j);
    }
  }

  /** The two node lists hold the same fragments of the file. */
  predicate SameFragments(before: seq<Directory>, after: seq<Directory>, fileName: string)
    requires |before| == |after|
  {
    forall j :: 0 <= j < |before| ==>
      && (FragmentName(fileName, j) in before[j] <==> FragmentName(fileName, j) in after[j])
      && (FragmentName(fileName, j) in before[j] ==> after[j][FragmentName(fileName, j)] == before[j][FragmentName(fileName, j)])
  }

  /** Assembly of a file looks only at that file's fragment names. */
  lemma {:induction false} AssembleIgnoresOtherFiles(before: seq<Directory>, after: seq<Directory>, fileName: string, i: nat, staged: Bytes)
    requires |before| == |after| && i <= |before| && IsAscii(fileName) && LongSized(before)
    requires SameFragments(before, after, fileName)
    ensures AssembleFrom(after, fileName, i, staged) == AssembleFrom(before, fileName, i, staged)
    decreases |before| - i
  {
    if i < |before| {
      var name := FragmentName(fileName, i);
      var present := name in before[i];
      assert present == (name in after[i]);
      assert present ==> after[i][name] == before[i][name];
      AssembleStep(before, fileName, i, staged);
      AssembleStep(after, fileName, i, staged);
      if Writable(name) && present {
        AssembleIgnoresOtherFiles(before, after, fileName, i + 1, staged + before[i][name]);
      }
    }
  }

  /**
   * An upload of another file, however it ends, does not change what
   * retrieving this file yields.
   */
  lemma UploadKeepsOtherFiles(nodes: seq<Directory>, fileName: string, other: string, size: int, input: Bytes)
    requires |nodes| >= 1 && IsAscii(fileName) && IsAscii(other) && other != fileName
    requires LONG_MIN <= size <= LONG_MAX && LongSized(nodes)
    ensures var after := DistributeFrom(nodes, other, PlanSizes(size, |nodes|), input, 0).nodes;
      AssembleFrom(after, fileName, 0, []) == AssembleFrom(nodes, fileName, 0, [])
  {
    var plan := PlanSizes(size, |nodes|);
    PlanIsLong(size, |nodes|);
    var after := DistributeFrom(nodes, other, plan, input, 0).nodes;
    forall j | 0 <= j < |nodes|
      ensures && (FragmentName(fileName, j) in nodes[j] <==> FragmentName(fileName, j) in after[j])
              && (FragmentName(fileName, j) in nodes[j] ==> after[j][FragmentName(fileName, j)] == nodes[j][FragmentName(fileName, j)])
    {
      DistributeTouchesOnlyItsFragments(nodes, other, plan, input, j);
      var name := FragmentName(fileName, j);
      if name == FragmentName(other, j) {
        FragmentNameInjective(fileName, j, other, j);
      }
      assert name in after[j] - {FragmentName(other, j)} <==> name in nodes[j] - {FragmentName(other, j)};
      if name in nodes[j] {
        assert after[j][name] == (after[j] - {FragmentName(other, j)})[name];
      }
    }
    AssembleIgnoresOtherFiles(nodes, after, fileName, 0, []);
  }

  // ---------------------------------------------------------------- assembleFile as written

  /** The writeUTF frame of "OK": length 2, then 'O' and 'K'. */
  lemma OkFrame()
    ensures Writable(Ok()) && WriteUtf(Ok()) == [0, 2, 79, 75]
    ensures BigEndianValue(WriteUtf(Ok())) == 0x2_4F4B
  {
    WordsAreWireNames();
    AsciiWritable(Ok());
    BigEndianTwo(2);
    assert AsciiBytes(Ok()) == [79, 75];
    BigEndianValueFour([0, 2, 79, 75]);
  }

  /**
   * A node's "OK" reply read as a long: the two length bytes of "OK", its
   * letters 'O' and 'K', and the four high bytes of the fragment length,
   * which are zero below 4 GiB. The rest starts in the middle of the length.
   */
  lemma AsWrittenMisreadsFileReply(content: Bytes)
    requires |content| < 0x1_0000_0000
    ensures ReadLong(FileReply(content)) == Some((0x2_4F4B_0000_0000, WriteLong(|content|)[4..] + content))
  {
    OkFrame();
    MisreadFourBytesAsLong(WriteUtf(Ok()), content);
  }

  /** One round of the source's assembleFile: a length read beyond the bytes that follow stops it, keeping those bytes. */
  lemma AsWrittenStopsOnOverlongLength(nodes: seq<Directory>, fileName: string, i: nat, staged: Bytes)
    requires i < |nodes| && Writable(FragmentName(fileName, i))
    requires var r := ReadLong(SubServerStep(nodes[i], RetrieveRequest(FragmentName(fileName, i))).reply);
      r.Some? && r.value.0 > |r.value.1|
    ensures var r := ReadLong(SubServerStep(nodes[i], RetrieveRequest(FragmentName(fileName, i))).reply);
      AssembleAsWrittenFrom(nodes, fileName, i, staged) == Failed(staged + r.value.1)
  {
  }

  lemma EmptyPrefix(s: Bytes)
    ensures [] + s == s
  {
  }

  /** The same on the first node, with nothing staged: the assembly fails holding exactly the bytes after the misread length. */
  lemma AsWrittenFailsFirst(nodes: seq<Directory>, fileName: string, rest: Bytes)
    requires |nodes| >= 1 && Writable(FragmentName(fileName, 0))
    requires var r := ReadLong(SubServerStep(nodes[0], RetrieveRequest(FragmentName(fileName, 0))).reply);
      r.Some? && r.value.0 > |r.value.1| && r.value.1 == rest
    ensures AssembleAsWrittenFrom(nodes, fileName, 0, []) == Failed(rest)
  {
    AsWrittenStopsOnOverlongLength(nodes, fileName, 0, []);
    EmptyPrefix(rest);
  }

  /** The source's assembleFile on a first node that holds its fragment below 4 GiB: the copy runs past the end of the reply. */
  lemma AsWrittenFailsOnStoredFragment(nodes: seq<Directory>, fileName: string)
    requires |nodes| >= 1 && IsAscii(fileName) && Writable(FragmentName(fileName, 0))
    requires FragmentName(fileName, 0) in nodes[0] && |nodes[0][FragmentName(fileName, 0)]| < 0x1_0000_0000
    ensures var content := nodes[0][FragmentName(fileName, 0)];
      AssembleAsWrittenFrom(nodes, fileName, 0, []) == Failed(WriteLong(|content|)[4..] + content)
  {
    var name := FragmentName(fileName, 0);
    NamesAreAscii(fileName, 0);
    FragmentNamePlain(fileName, 0);
    NodeRetrieve(nodes[0], name);
    var content := nodes[0][name];
    AsWrittenMisreadsFileReply(content);
    AsWrittenFailsFirst(nodes, fileName, WriteLong(|content|)[4..] + content);
  }

  /** The source's assembleFile on a first node that lacks its fragment: "Fichier introuvable" is read as a length, and the copy runs past its end. */
  lemma AsWrittenFailsOnMissingFragment(nodes: seq<Directory>, fileName: string)
    requires |nodes| >= 1 && IsAscii(fileName) && Writable(FragmentName(fileName, 0))
    requires FragmentName(fileName, 0) !in nodes[0]
    ensures Writable(NotFound())
    ensures AssembleAsWrittenFrom(nodes, fileName, 0, []) == Failed(WriteUtf(NotFound())[8..])
  {
    NamesAreAscii(fileName, 0);
    FragmentNamePlain(fileName, 0);
    NodeRetrieve(nodes[0], FragmentName(fileName, 0));
    NotFoundMisread();
    AsWrittenFailsFirst(nodes, fileName, WriteUtf(NotFound())[8..]);
  }

  /** "Fichier introuvable" read as a long: a length far beyond the 13 bytes that follow it. */
  lemma NotFoundMisread()
    ensures Writable(NotFound())
    ensures var r := ReadLong(WriteUtf(NotFound()));
      r.Some? && r.value.1 == WriteUtf(NotFound())[8..] && r.value.0 > |r.value.1|
  {
    WordsAreWireNames();
    MisreadUtfAsLong(NotFound());
  }

  /**
   * assembleFile as written fails on the first node, whatever it holds: a
   * fragment below 4 GiB is read with a length of about 6.5 * 10^14 bytes and
   * the copy hits the end of the stream; a missing fragment's message is read
   * as a length too. It never delivers a file and never reports one missing.
   */
  lemma AsWrittenAssemblyFails(nodes: seq<Directory>, fileName: string)
    requires |nodes| >= 1 && IsAscii(fileName) && Writable(FragmentName(fileName, 0))
    requires FragmentName(fileName, 0) in nodes[0] ==> |nodes[0][FragmentName(fileName, 0)]| < 0x1_0000_0000
    ensures AssembleAsWrittenFrom(nodes, fileName, 0, []).Failed?
  {
    if FragmentName(fileName, 0) in nodes[0] {
      AsWrittenFailsOnStoredFragment(nodes, fileName);
    } else {
      AsWrittenFailsOnMissingFragment(nodes, fileName);
    }
  }

  /**
   * The discrepancy end to end: after a complete upload of any file below
   * 4 GiB, the source's assembleFile fails where the corrected one gives the
   * file back.
   */
  lemma AsWrittenRoundTripFails(nodes: seq<Directory>, fileName: string, data: Bytes)
    requires |nodes| >= 1 && NamesFit(fileName, |nodes|) && |data| < 0x1_0000_0000 && LongSized(nodes)
    ensures var d := DistributeFrom(nodes, fileName, PlanSizes(|data|, |nodes|), data, 0);
      && AssembleAsWrittenFrom(d.nodes, fileName, 0, []).Failed?
      && AssembleFrom(d.nodes, fileName, 0, []) == Assembled(data)
  {
    DistributeThenAssemble(nodes, fileName, data);
    DistributeStoresFragments(nodes, fileName, data);
    var d := DistributeFrom(nodes, fileName, PlanSizes(|data|, |nodes|), data, 0);
    FragmentLengthIsLong(|data|, |nodes|, 0);
    assert IsWireName(FragmentName(fileName, 0));
    AsciiWritable(FragmentName(fileName, 0));
    AsWrittenAssemblyFails(d.nodes, fileName);
  }

  /**
   * One node holding the only fragment of a file below 256 bytes: the
   * source's assembly stages a zero-padded length byte and the content, then
   * fails; with [1, 2, 3] it stages [0, 0, 0, 3, 1, 2, 3].
   */
  lemma AsWrittenLosesSmallFile(fileName: string, content: Bytes)
    requires NamesFit(fileName, 1) && |content| < 256
    ensures var nodes := [map[FragmentName(fileName, 0) := content]];
      AssembleAsWrittenFrom(nodes, fileName, 0, []) == Failed([0, 0, 0, |content| as byte] + content)
  {
    var nodes := [map[FragmentName(fileName, 0) := content]];
    assert IsWireName(FragmentName(fileName, 0));
    AsciiWritable(FragmentName(fileName, 0));
    AsWrittenFailsOnStoredFragment(nodes, fileName);
    ByteLong(|content|);
  }

  /**
   * The coordinator's invariant: every connection leaves a directory whose
   * entries are plain wire names, so listFiles can write each of them on
   * the next connection. Only a download adds an entry, under the name it
   * was asked for, which then passed the staging test.
   */
  lemma ClientStepKeepsWireNames(st: State, request: Bytes, listing: seq<string>)
    requires WireNames(st.directory) && Enumerates(listing, st.directory)
    ensures WireNames(ClientStep(st, request, listing).state.directory)
  {
    match ReadUtf(request)
    case None =>
    case Some((command, args)) =>
      var c := ToUpper(command);
      if c == Envoyer() {
        EnvoyerKeepsDirectory(st, args);
      } else if c == Recevoir() {
        RecevoirKeepsWireNames(st, args);
      } else if c == Supprimer() {
        SupprimerKeepsWireNames(st, args);
      }
  }

  /** An upload changes the nodes only: the coordinator's directory stays as it was. */
  lemma EnvoyerKeepsDirectory(st: State, args: Bytes)
    ensures EnvoyerStep(st, args).state.directory == st.directory
    ensures EnvoyerStep(st, args).state.hasDirectory == st.hasDirectory
  {
  }

  /** A download leaves its staged copy only under a name readUTF gave and the staging test let through. */
  lemma RecevoirKeepsWireNames(st: State, args: Bytes)
    requires WireNames(st.directory)
    ensures WireNames(RecevoirStep(st, args).state.directory)
  {
    match ReadUtf(args)
    case None =>
    case Some((fileName, _)) =>
      assert IsWireName(fileName);
  }

  /** A deletion only removes entries. */
  lemma SupprimerKeepsWireNames(st: State, args: Bytes)
    requires WireNames(st.directory)
    ensures WireNames(SupprimerStep(st, args).state.directory)
  {
  }
}
