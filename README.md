# Distributed file store: coordinator, storage nodes and configuration loader

This project models the server side of Projet-Reseauxv2, a small distributed
file store written in Java, and proves properties of that model.

- A **coordinator** (`MainServer`) accepts one command per client connection:
  - ENVOYER (upload) splits the file over the storage nodes.
  - RECEVOIR (download) gathers the fragments back into its own directory,
    sends the file and deletes the staged copy.
  - LISTER lists that directory.
  - SUPPRIMER deletes an entry of that directory.
- Each **storage node** (`startSubServer`) answers STORE and RETRIEVE of
  fragments named `<file>.part<i>`.
- The **configuration loader** (`ServerConfigLoader`) reads the main server
  and the ordered list of nodes from `servers_config.txt`. When that fails,
  it falls back to built-in defaults.

The model works at the level of the bytes on the sockets:

- `writeUTF` is a 2-byte big-endian length followed by modified UTF-8.
- `writeLong` is 8 bytes, big-endian two's complement.
- `readUTF` and `readLong` are their partial inverses: `None` when the stream
  ends first.

Each connection becomes a function from a state and the request's bytes to a
new state and the reply's bytes (module `Protocol`):

- `SubServerStep` is one node connection.
- `EnvoyerStep`, `RecevoirStep`, `SupprimerStep` and `ClientStep` are the
  coordinator's commands.

The source changes state in place, and so does the model:

- A storage node is a `class StorageNode` whose `files` map the methods update.
- The coordinator is a `class Coordinator` holding its directory, whether that
  directory exists, and its node objects.
- The configuration loader is a `class ServerConfigLoader` whose fields the
  methods update.
- The chunked copy loops are `while` loops with invariants (module
  `ChunkedIO`).

Every method is proved against the connection functions. The properties
below are proved about those functions:

- the fragment plan;
- the upload/download round trip;
- case-insensitive dispatch;
- what each command leaves unchanged;
- the configuration's parse, its defaults and its round trip.

Modules, in dependency order:

| module | file | contents |
|---|---|---|
| `Wrappers`, `Sequences` | wrappers.dfy, sequences.dfy | `Option`; small generic facts about sequences and maps |
| `JavaString` | java_string.dfy | `Integer.parseInt`, `trim`, `split`, `toUpperCase`, `equalsIgnoreCase`, decimal printing |
| `DataStreams` | data_streams.dfy | the DataOutputStream and DataInputStream byte layout |
| `ChunkedIO` | chunked_io.dfy | `InputStream.read` and the bounded and unbounded copy loops |
| `ServerConfig` | config_loader.dfy | ServerConfigLoader |
| `Fragmentation` | fragmentation.dfy | fragment sizes, fragment bytes and fragment names |
| `Protocol` | protocol.dfy | the node and coordinator connections as functions |
| `ProtocolProofs`, `ClientProofs` | protocol_proofs.dfy, client_proofs.dfy | properties of those functions |
| `Servers` | servers.dfy | `StorageNode` and `Coordinator` as classes, proved against `Protocol` |

Points where the code does something other than what its client or its
comments expect. The model follows the code:

- **LISTER has no terminator.** `listFiles` (MainServer.java lines 218-229)
  writes "OK" and the names with no terminating empty string. The client's
  loop (Client.java line 172) reads names until an empty one, so it runs
  into the end of the stream. This is proved in
  `ClientProofs.ListingHasNoTerminator`.
- **The last main_server line wins.** Each main_server line overwrites host
  and port (ServerConfigLoader.java lines 29-31). With none, the host stays
  `null` and the port 0.
- **Bad ports.** `Integer.parseInt` runs on every non-ignored three-part line
  before the type is checked (ServerConfigLoader.java line 27). So a line of
  an unknown type with a non-numeric third part makes the whole file fall
  back to the defaults. This is proved in `ServerConfig.BadPortResets`.
- **A failing connection stops the node.** The accept loop of
  `startSubServer` has no catch, so the first connection that throws ends
  it (Findings, row 2).
- **Downloads read no status.** `sendFile` starts its reply with "OK", but
  `assembleFile` reads the length straight away (Findings, row 1).
- **The corrected download is used.** `RecevoirStep`, `ClientStep`, the
  `Coordinator` class and the `ClientProofs` lemmas about RECEVOIR use the
  corrected `assembleFile`, which reads the status first. The rows marked
  "corrected assembleFile" below state what that corrected code does, not
  what lines 178-204 do.
- **Nodes keep serving.** The coordinator's state (`State`, `ClientStep`,
  `Coordinator`) gives every node as a map of files that answers every
  connection. That is the corrected accept loop of Findings row 2. As
  written, a node whose STORE throws answers no later connection, so a
  later download gets no answer from it. The rows marked "corrected accept
  loop" hold only in that corrected world.

## Model

| member | source | states |
|---|---|---|
| ServerConfig.ServerConfigLoader.constructor | Projet-Reseauxv2/ServerConfigLoader.java:13-16 | the class initialiser leaves the fields as loadConfiguration computes them from a null host, port 0 and an empty list |
| ServerConfig.ServerConfigLoader.LoadConfiguration | Projet-Reseauxv2/ServerConfigLoader.java:18-42 | the new fields are the old ones updated line by line, or exactly the defaults once a read error or NumberFormatException is caught |
| ServerConfig.ServerConfigLoader.ApplyLine | Projet-Reseauxv2/ServerConfigLoader.java:22-36 | one line of the read loop succeeds exactly when its port does not throw; it then applies the line's entry, otherwise nothing changes |
| ServerConfig.ServerConfigLoader.ApplyParts | Projet-Reseauxv2/ServerConfigLoader.java:24-35 | a three-part line parses the port first, then a main_server line sets host and port and a sub_server line appends; any other type changes nothing |
| ServerConfig.ServerConfigLoader.SetDefaultValues | Projet-Reseauxv2/ServerConfigLoader.java:44-52 | the fields become 127.0.0.1:12345 and exactly the three local sub-servers 12346-12348, the earlier list cleared |
| ServerConfig.ServerConfigLoader.GetMainServerHost | Projet-Reseauxv2/ServerConfigLoader.java:54-56 | returns the loaded main host (null when no main_server line was read) |
| ServerConfig.ServerConfigLoader.GetMainServerPort | Projet-Reseauxv2/ServerConfigLoader.java:58-60 | returns the loaded main port |
| ServerConfig.ServerConfigLoader.GetSubServers | Projet-Reseauxv2/ServerConfigLoader.java:62-64 | returns the sub-servers in loaded order |
| ServerConfig.ServerConfigLoader.GetServerDirectory | Projet-Reseauxv2/ServerConfigLoader.java:66-68 | always "server_directory", whatever the file says |
| ServerConfig.ServerConfigLoader.GetChunkSize | Projet-Reseauxv2/ServerConfigLoader.java:70-72 | always 1024, whatever the file says |
| ServerConfig.ParseSucceedsIff | Projet-Reseauxv2/ServerConfigLoader.java:21-41 | the read loop gets through the file if and only if no three-part line has a port parseInt rejects |
| ServerConfig.ParseFailsOnPrefix | Projet-Reseauxv2/ServerConfigLoader.java:27 | once a line throws, the lines after it cannot undo it: the whole file fails |
| ServerConfig.SubServersInFileOrder | Projet-Reseauxv2/ServerConfigLoader.java:32-34 | the sub-servers are those already loaded followed by every sub_server line, in file order |
| ServerConfig.LastMainLineWins | Projet-Reseauxv2/ServerConfigLoader.java:29-31 | the last main_server line decides host and port; with none they keep their earlier values |
| ServerConfig.FailureGivesDefaults | Projet-Reseauxv2/ServerConfigLoader.java:38-41 | a read error or a bad port anywhere gives exactly the defaults, whatever was loaded before |
| ServerConfig.LoadedFromFile | Projet-Reseauxv2/ServerConfigLoader.java:18-42 | a file read to the end with valid ports: sub-servers are its sub_server lines in order, main server its last main_server line, else null host and port 0 |
| ServerConfig.DefaultSubServers | Projet-Reseauxv2/ServerConfigLoader.java:49-51 | the defaults are three sub-servers on 127.0.0.1, ports 12346 + i |
| ServerConfig.BadPortResets | Projet-Reseauxv2/ServerConfigLoader.java:22-41 | a read line of three parts whose third part parseInt rejects resets the whole configuration to the defaults, whatever its type, an unknown one included |
| ServerConfig.EntryLineReadsBack | Projet-Reseauxv2/ServerConfigLoader.java:22-34 | a line `type:host:port` written from a host without ':' and an int port is read back as that entry |
| ServerConfig.ConfigRoundTrip | Projet-Reseauxv2/ServerConfigLoader.java:18-42 | loading a file written from a main server and a list of sub-servers gives back that main server and that list in order |
| ServerConfig.IndentedCommentThrows | Projet-Reseauxv2/ServerConfigLoader.java:22-27 | a '#' comment indented by a space is not skipped: it is trimmed, split into three parts, and parseInt rejects the third |
| ServerConfig.IndentedCommentResets | Projet-Reseauxv2/ServerConfigLoader.java:22-41 | such a line anywhere in the file resets the whole configuration to the defaults |
| JavaString.ParseInt | Projet-Reseauxv2/ServerConfigLoader.java:27 | an accepted value lies in the 32-bit int range |
| JavaString.ParseIntDecimal | Projet-Reseauxv2/ServerConfigLoader.java:27 | parseInt reads back the decimal text of every int, with or without a minus sign |
| JavaString.ParseIntRejectsNonDigit | Projet-Reseauxv2/ServerConfigLoader.java:27 | a text with a character that is not a digit (or a leading sign) throws |
| JavaString.Trim | Projet-Reseauxv2/ServerConfigLoader.java:22-23 | the result is the slice of the string left once the trimmable characters at both ends are removed: it starts and ends with a visible character, and is empty exactly when every character is trimmable |
| JavaString.SplitAll | Projet-Reseauxv2/ServerConfigLoader.java:23 | no piece holds the separator, and joining the pieces with it gives the string back |
| JavaString.SplitThree | Projet-Reseauxv2/ServerConfigLoader.java:23-24 | three separator-free pieces joined by ':' split back into exactly those three |
| JavaString.ToUpper | Projet-Reseauxv2/MainServer.java:45 | same length, each ASCII letter upper-cased and every other character kept, so no lower-case letter is left and the result equals the string ignoring case |
| JavaString.EqualsIgnoreCaseIsUpperEquality | Projet-Reseauxv2/MainServer.java:109 | the node's equalsIgnoreCase and the coordinator's toUpperCase comparison accept the same pairs |
| JavaString.ToUpperIdempotent | Projet-Reseauxv2/MainServer.java:45 | upper-casing twice is upper-casing once |
| JavaString.DecimalInjective | Projet-Reseauxv2/MainServer.java:165 | different fragment indices print differently |
| DataStreams.WriteLong | Projet-Reseauxv2/MainServer.java:166 | writeLong always writes 8 bytes |
| DataStreams.ReadLong | Projet-Reseauxv2/MainServer.java:111 | readLong succeeds exactly when 8 bytes remain, yields a long and leaves the bytes after them |
| DataStreams.ReadWriteLong | Projet-Reseauxv2/MainServer.java:111 | readLong gives back every long writeLong wrote, and the bytes after it |
| DataStreams.WriteUtf | Projet-Reseauxv2/MainServer.java:164 | the frame is the 2-byte length and the modified UTF-8 encoding |
| DataStreams.ReadUtf | Projet-Reseauxv2/MainServer.java:44 | readUTF yields a name and a suffix of the stream at least 2 bytes shorter |
| DataStreams.ReadWriteUtf | Projet-Reseauxv2/MainServer.java:44-47 | readUTF gives back every ASCII string writeUTF wrote, and the bytes after it |
| DataStreams.ReadWriteUtfs | Projet-Reseauxv2/MainServer.java:223-225 | a sequence of frames reads back as the same names in the same order |
| DataStreams.MisreadUtfAsLong | Projet-Reseauxv2/MainServer.java:192 | a frame of at least six characters read as a long gives a length of at least n * 2^48 |
| ChunkedIO.Read | Projet-Reseauxv2/MainServer.java:135 | -1 exactly at end of stream, otherwise between 1 and the requested count |
| ChunkedIO.Transfer | Projet-Reseauxv2/MainServer.java:134-138 | the bytes copied and the bytes left make up the stream; complete exactly when the count was available |
| ChunkedIO.CopyExactly | Projet-Reseauxv2/MainServer.java:134-138 | whatever counts the reads return, the loop ends with Transfer's outcome, each read within the buffer and what is owed |
| ChunkedIO.PumpToEnd | Projet-Reseauxv2/MainServer.java:148-150 | the loop to end of stream forwards exactly the content, in reads of at most one buffer |
| Fragmentation.FragmentPlanCoversFile | Projet-Reseauxv2/MainServer.java:155-159 | every fragment but the last gets S / N, the last the remainder, none is negative and they add up to S |
| Fragmentation.PlanSumsToFile | Projet-Reseauxv2/MainServer.java:155-159 | the declared sizes are non-negative and add up to the file size |
| Fragmentation.PlanBounds | Projet-Reseauxv2/MainServer.java:155-159 | every fragment boundary lies inside the file |
| Fragmentation.FragmentLengthIsLong | Projet-Reseauxv2/MainServer.java:159 | a declared fragment size lies between 0 and the file size, so it fits a long |
| Fragmentation.FragmentSlices | Projet-Reseauxv2/MainServer.java:158-173 | fragment i is the slice of the file from its start to the next fragment's start, or to the end |
| Fragmentation.ConcatFragments | Projet-Reseauxv2/MainServer.java:158-176 | the fragments concatenated in node order are the file |
| Fragmentation.FragmentNamePlain | Projet-Reseauxv2/MainServer.java:165 | a fragment name is never ".", ".." or "", and is a plain file name exactly when the file name has no '/' |
| Fragmentation.NamesFitFromLast | Projet-Reseauxv2/MainServer.java:165 | if the last fragment name fits writeUTF, every fragment name does |
| Fragmentation.FragmentNameInjective | Projet-Reseauxv2/MainServer.java:165 | two fragment names are equal only for the same file and index, so fragments never overwrite each other |
| Fragmentation.TenThousandBytesOnThreeNodes | Projet-Reseauxv2/MainServer.java:155-165 | 10000 bytes on three nodes are sent as 3333, 3333 and 3334 bytes, the last as "a.txt.part2" |
| Protocol.ServeAsWritten | Projet-Reseauxv2/MainServer.java:100-126 | the node's accept loop as written answers at most as many connections as it is given |
| Protocol.Serve | Projet-Reseauxv2/MainServer.java:103-124 | the accept loop with the failing connection dropped answers every connection |
| Protocol.AssembleAsWrittenFrom | Projet-Reseauxv2/MainServer.java:178-204 | assembleFile as written never reports a missing file |
| ProtocolProofs.NodeStoreReplaces | Projet-Reseauxv2/MainServer.java:108-113 | STORE replaces the named file by the bytes received, up to the declared size; no reply; failed exactly when the stream ends early |
| ProtocolProofs.NodeStoreRefuses | Projet-Reseauxv2/MainServer.java:112 | STORE of a directory or a path into a subdirectory fails before anything is stored |
| ProtocolProofs.StoreHeaderReadsBack | Projet-Reseauxv2/MainServer.java:108-111 | the node reads back the command, the name and the size that distributeFile wrote |
| ProtocolProofs.NodeRetrieve | Projet-Reseauxv2/MainServer.java:114-122 | RETRIEVE answers "OK", the length and the bytes of a stored file, or "Fichier introuvable"; the files do not change |
| ProtocolProofs.NodeIgnoresOtherCommands | Projet-Reseauxv2/MainServer.java:108-123 | any other command in any letter case gets no reply and changes nothing |
| ProtocolProofs.ReadFileReply | Projet-Reseauxv2/MainServer.java:142-152 | a sendFile reply reads back as "OK", the length and exactly the content |
| ProtocolProofs.ServeAsWrittenIsPrefix | Projet-Reseauxv2/MainServer.java:100-126 | the loop as written answers a prefix of the intended loop's replies, and all of them, in the same end state, exactly when no connection but the last fails |
| ProtocolProofs.ServeAsWrittenStopsAtShortUpload | Projet-Reseauxv2/MainServer.java:103-124 | as written, a short upload leaves its partial file and no later connection is answered |
| ProtocolProofs.ServeGoesOnAfterShortUpload | Projet-Reseauxv2/MainServer.java:103-124 | as intended, the node keeps the partial file and serves the later connections |
| ProtocolProofs.PlanIsLong | Projet-Reseauxv2/MainServer.java:159-166 | every declared size is a long, as writeLong sends it |
| ProtocolProofs.DistributeStep | Projet-Reseauxv2/MainServer.java:158-175 | one round: node i stores what arrived of fragment i, and the loop goes on only if all of it arrived |
| ProtocolProofs.DistributeStepRefused | Projet-Reseauxv2/MainServer.java:158-175 | one round for a name with '/': the node stores nothing while the coordinator sends on |
| ProtocolProofs.DistributeRefusedStoresNothing | Projet-Reseauxv2/MainServer.java:154-176 | an upload whose name reaches into a subdirectory leaves every node as it was (corrected accept loop, Findings row 2) |
| ProtocolProofs.DistributeCompleteReadsAll | Projet-Reseauxv2/MainServer.java:168-173 | the loop reaches its end only if the client sent every declared byte |
| ProtocolProofs.FragmentTransfer | Projet-Reseauxv2/MainServer.java:168-173 | copying fragment i's declared size from the remaining bytes yields exactly fragment i and leaves the next fragments |
| ProtocolProofs.DistributeStoresFragments | Projet-Reseauxv2/MainServer.java:154-176 | with the client's bytes in full the upload completes and node j holds fragment j under `name.partj`, nothing else changed |
| ProtocolProofs.DistributeCutShort | Projet-Reseauxv2/MainServer.java:168-173 | a client that sends fewer bytes than declared never completes the upload, and each node may change only its own fragment |
| ProtocolProofs.DistributeTouchesOnlyFragments | Projet-Reseauxv2/MainServer.java:154-176 | however it ends, an upload changes on node j only fragment j |
| ProtocolProofs.DistributeTouchesOnlyItsFragments | Projet-Reseauxv2/MainServer.java:154-176 | the same for one node j |
| ProtocolProofs.AssembleStep | Projet-Reseauxv2/MainServer.java:184-199 | one corrected round: a name writeUTF refuses fails, a missing fragment ends as missing, a stored one is appended whole (corrected assembleFile, Findings row 1) |
| ProtocolProofs.AssembleFromCollects | Projet-Reseauxv2/MainServer.java:184-200 | when every node holds its fragment, the loop stages them all in node order (corrected assembleFile, Findings row 1) |
| ProtocolProofs.AssembleFromMissing | Projet-Reseauxv2/MainServer.java:184-200 | a node lacking its fragment makes the corrected assembly report the file missing (corrected assembleFile, Findings row 1) |
| ProtocolProofs.NotFoundReadsBack | Projet-Reseauxv2/MainServer.java:121 | the node's "Fichier introuvable" reads back as a status other than "OK" |
| ProtocolProofs.AssembleIffAllFragments | Projet-Reseauxv2/MainServer.java:178-204 | the corrected assembly delivers a file if and only if every node holds its fragment, and the file is the fragments in order; otherwise it reports it missing (corrected assembleFile, Findings row 1) |
| ProtocolProofs.DistributeThenAssemble | Projet-Reseauxv2/MainServer.java:154-204 | distributing a file over N >= 1 nodes and assembling it gives back exactly the bytes sent (corrected assembleFile, Findings row 1) |
| ProtocolProofs.AssembleIgnoresOtherFiles | Projet-Reseauxv2/MainServer.java:184-199 | the assembly of a file depends only on that file's fragment names |
| ProtocolProofs.UploadKeepsOtherFiles | Projet-Reseauxv2/MainServer.java:154-204 | an upload of another file, however it ends, does not change what assembling this file yields (corrected accept loop, Findings row 2) |
| ProtocolProofs.ClientStepKeepsWireNames | Projet-Reseauxv2/MainServer.java:39-77 | every client connection leaves a directory whose entries are plain names writeUTF can send, which listFiles needs on the next connection |
| ProtocolProofs.OkFrame | Projet-Reseauxv2/MainServer.java:144 | the frame of "OK" is the bytes 0, 2, 'O', 'K' |
| ProtocolProofs.AsWrittenMisreadsFileReply | Projet-Reseauxv2/MainServer.java:192 | readLong on a node's reply takes "OK"'s frame and the high half of the length as the length 0x24F4B00000000 |
| ProtocolProofs.AsWrittenStopsOnOverlongLength | Projet-Reseauxv2/MainServer.java:192-198 | a length beyond the bytes that follow fails the assembly after staging those bytes |
| ProtocolProofs.AsWrittenFailsOnStoredFragment | Projet-Reseauxv2/MainServer.java:192-198 | as written, a stored fragment below 4 GiB on the first node fails the assembly, staging its length's low half and content |
| ProtocolProofs.AsWrittenFailsOnMissingFragment | Projet-Reseauxv2/MainServer.java:192-198 | as written, "Fichier introuvable" is read as a length too, and the assembly fails instead of reporting the file missing |
| ProtocolProofs.NotFoundMisread | Projet-Reseauxv2/MainServer.java:192 | "Fichier introuvable" read as a long is far longer than the 13 bytes after it |
| ProtocolProofs.AsWrittenAssemblyFails | Projet-Reseauxv2/MainServer.java:178-204 | as written, assembleFile fails whatever the first node holds |
| ProtocolProofs.AsWrittenRoundTripFails | Projet-Reseauxv2/MainServer.java:178-204 | after a complete upload of any file below 4 GiB, the source's assembleFile fails where the corrected one gives the file back |
| ProtocolProofs.AsWrittenLosesSmallFile | Projet-Reseauxv2/MainServer.java:192-198 | one node with [1, 2, 3]: the source stages [0, 0, 0, 3, 1, 2, 3] and fails |
| ClientProofs.CommandsIgnoreCase | Projet-Reseauxv2/MainServer.java:44-45 | a command in any letter case is handled exactly as its upper-case form |
| ClientProofs.UnknownCommandChangesNothing | Projet-Reseauxv2/MainServer.java:71-72 | any other command is answered "COMMANDE INCONNUE" and changes nothing |
| ClientProofs.Dispatch | Projet-Reseauxv2/MainServer.java:45-73 | each of the four commands reaches its own handler with the bytes after the command |
| ClientProofs.EnvoyerArgs | Projet-Reseauxv2/MainServer.java:47-48 | the coordinator reads back the name and the size the client wrote |
| ClientProofs.EnvoyerStoresFragments | Projet-Reseauxv2/MainServer.java:46-52 | a full upload stores fragment j on node j, changes nothing else and answers "OK" |
| ClientProofs.EnvoyerCutShort | Projet-Reseauxv2/MainServer.java:46-52 | an upload cut short is never answered "OK", leaves the coordinator's directory alone and touches only the file's fragments |
| ClientProofs.EnvoyerWithoutNodes | Projet-Reseauxv2/MainServer.java:155 | with no node the division throws: no answer, no change |
| ClientProofs.RecevoirDelivers | Projet-Reseauxv2/MainServer.java:53-60 | a download of a file every node holds answers "OK", the length and the fragments in order, and deletes the staged copy (corrected assembleFile, Findings row 1) |
| ClientProofs.RecevoirMissing | Projet-Reseauxv2/MainServer.java:53-63 | a download with a missing fragment answers "Fichier introuvable", leaves the nodes and keeps the staged bytes under the file's name (corrected assembleFile, Findings row 1) |
| ClientProofs.RecevoirRefused | Projet-Reseauxv2/MainServer.java:53-55 | a name the staging file cannot be opened for, or a deleted server directory, ends the download with no answer and no change |
| ClientProofs.RecevoirReplyIgnoresDirectory | Projet-Reseauxv2/MainServer.java:53-64 | the answer to RECEVOIR depends on the nodes and the directory's existence, not on its entries (corrected assembleFile, Findings row 1) |
| ClientProofs.UploadThenDownload | Projet-Reseauxv2/MainServer.java:46-64 | ENVOYER then RECEVOIR of the same name gives the client back exactly its bytes, and leaves no copy in the coordinator's directory (corrected assembleFile and accept loop, Findings rows 1 and 2) |
| ClientProofs.ClientUpload | Projet-Reseauxv2/Client.java:110-120 | the client's ENVOYER request stores the fragments on the nodes and is answered "OK" |
| ClientProofs.ClientDownload | Projet-Reseauxv2/Client.java:137-153 | the client's RECEVOIR request gets back the data whose fragments the nodes hold (corrected assembleFile and accept loop, Findings rows 1 and 2) |
| ClientProofs.SupprimerRemovesDirectory | Projet-Reseauxv2/MainServer.java:231-235 | SUPPRIMER of the empty name removes the empty server directory and reports success |
| ClientProofs.SupprimerRemovesEntry | Projet-Reseauxv2/MainServer.java:231-236 | SUPPRIMER of an existing entry removes it alone from the coordinator's directory and reports success |
| ClientProofs.SupprimerFails | Projet-Reseauxv2/MainServer.java:234-239 | when exists() and delete() do not both succeed, the failure message is sent and nothing changes |
| ClientProofs.DownloadSurvivesDelete | Projet-Reseauxv2/MainServer.java:231-240 | deleting leaves the fragments: a later download answers as it would have before (corrected assembleFile, Findings row 1) |
| ClientProofs.NoTerminator | Projet-Reseauxv2/Client.java:172 | the client's loop over name frames with no empty string runs into the end of the stream |
| ClientProofs.WithTerminator | Projet-Reseauxv2/Client.java:172 | with a terminating empty string the same loop reads exactly the names |
| ClientProofs.ListerAnswersListing | Projet-Reseauxv2/MainServer.java:65-67 | LISTER answers listFiles' reply for the directory's listing and changes nothing |
| ClientProofs.ListReplyHasNoTerminator | Projet-Reseauxv2/MainServer.java:218-229 | a non-empty listing reply is "OK" and every name, with no terminator after them |
| ClientProofs.ListingHasNoTerminator | Projet-Reseauxv2/Client.java:169-174 | the client reading LISTER's reply gets "OK" and the names, then hits the end of the stream instead of an empty string |
| ClientProofs.ListerWithoutFiles | Projet-Reseauxv2/MainServer.java:218-229 | LISTER on an empty or deleted server directory answers "Aucun fichier trouvé." and changes nothing |
| Servers.SendFile | Projet-Reseauxv2/MainServer.java:206-216 | sendFileInChunks (and sendFile, lines 142-152) writes "OK", the length and the content pumped to end of stream |
| Servers.StorageNode.constructor | Projet-Reseauxv2/MainServer.java:94-98 | a node starts on the files its directory already holds |
| Servers.StorageNode.ReceiveFile | Projet-Reseauxv2/MainServer.java:129-140 | the file is truncated and filled with what arrives, up to the declared size; failed exactly when the stream ends first |
| Servers.StorageNode.Handle | Projet-Reseauxv2/MainServer.java:104-124 | one connection changes the files and replies exactly as SubServerStep says |
| Servers.StorageNode.Serve | Projet-Reseauxv2/MainServer.java:103-125 | serving connections in turn ends in the files and replies of the intended accept loop |
| Servers.OnlyStoreWrites | Projet-Reseauxv2/MainServer.java:108-123 | a connection whose command is not STORE never changes the node's files |
| Servers.RetrieveKeepsFiles | Projet-Reseauxv2/MainServer.java:114-122 | asking a node for a file never changes its files |
| Servers.WriteNames | Projet-Reseauxv2/MainServer.java:223-225 | listFiles' loop writes the frames that read back as the names in order |
| Servers.ReceiveFragment | Projet-Reseauxv2/MainServer.java:192-198 | the corrected handling of a node's reply either ends the assembly with its outcome or continues it with the fragment appended (corrected assembleFile, Findings row 1) |
| Servers.Coordinator.constructor | Projet-Reseauxv2/MainServer.java:13-17 | the server directory exists, with the files it already held |
| Servers.Coordinator.Send | Projet-Reseauxv2/MainServer.java:161-174 | a socket to node i changes node i as SubServerStep says and no other node or coordinator field |
| Servers.Coordinator.Fetch | Projet-Reseauxv2/MainServer.java:185-191 | the RETRIEVE connection returns the node's reply and leaves every node as it was |
| Servers.Coordinator.SendFragment | Projet-Reseauxv2/MainServer.java:159-174 | one round of distributeFile keeps the nodes on the path of DistributeFrom, or ends them where it ends |
| Servers.Coordinator.DistributeFile | Projet-Reseauxv2/MainServer.java:154-176 | the nodes end as DistributeFrom over the plan says; no node at all changes nothing and fails |
| Servers.Coordinator.AppendFragment | Projet-Reseauxv2/MainServer.java:184-199 | one round of the corrected assembleFile follows AssembleFrom, the staged entry growing by the fragment (corrected assembleFile, Findings row 1) |
| Servers.Coordinator.AssembleFile | Projet-Reseauxv2/MainServer.java:178-204 | the staged entry and the outcome are AssembleFrom's; None exactly when the staging file cannot be opened; nodes unchanged (corrected assembleFile, Findings row 1) |
| Servers.Coordinator.ListFiles | Projet-Reseauxv2/MainServer.java:218-229 | the reply is the listing's, or the no-file message when the directory is gone |
| Servers.Coordinator.Upload | Projet-Reseauxv2/MainServer.java:46-52 | the ENVOYER case leaves the state and reply EnvoyerStep gives |
| Servers.Coordinator.Download | Projet-Reseauxv2/MainServer.java:53-64 | the RECEVOIR case leaves the state and reply RecevoirStep gives (corrected assembleFile, Findings row 1) |
| Servers.Coordinator.Answer | Projet-Reseauxv2/MainServer.java:56-63 | once the file is staged, the state and reply are RecevoirStep's: sent then deleted, reported missing, or no reply (corrected assembleFile, Findings row 1) |
| Servers.Coordinator.DeleteFile | Projet-Reseauxv2/MainServer.java:231-240 | deleteFile leaves the state and reply SupprimerStep gives |
| Servers.Coordinator.HandleClient | Projet-Reseauxv2/MainServer.java:39-77 | one client connection leaves the state and reply ClientStep gives, and a directory of plain wire names, so the next connection can be served (corrected assembleFile, Findings row 1) |

## Left out

- Sockets, threads and the thread pool are not modelled. The coordinator's accept loop (MainServer.java lines 21-36), `startSubServers` (lines 80-91) and the binding of server sockets are out. A connection is one call, and the nodes answer as synchronous calls in configuration order. Concurrent clients are therefore not modelled.
- Console and log output (`System.out`, `System.err`, `printStackTrace`) is left out. Nothing the servers decide depends on it.
- A server directory that cannot be created (MainServer.java lines 14-16 and 95-97) is left out. The model starts from an existing directory.
- Deleting the staged copy after a download is modelled as always succeeding. The failure branch (MainServer.java lines 58-60) only logs.
- The file system's listing order is a parameter (`listing`). The model only requires it to enumerate the directory once.
- Path resolution by the operating system is not modelled. A name holding '/' is treated as reaching into a subdirectory of the directory, which a node never has, and the store or lookup fails. In the source, `new File(dir, name)` drops a leading '/', and the system resolves "." and "..": "./x" and "/x" name the file x inside the directory, and "../x" names x in the working directory, outside every server directory. The members below state the model's refusal, which is weaker than the source on such names.
- ProtocolProofs.NodeStoreRefuses: refuses every name with '/'. In the source a STORE of "./x" or "/x" stores x, and one of "../x" writes x outside the node's directory.
- ProtocolProofs.DistributeStepRefused: a node stores nothing for a file name with '/'. In the source "./f" is stored as f.part<i>, and "../f" as f.part<i> in the working directory. Even the coordinator's side is one possible outcome: the refusing node closes its socket with the fragment unread, so distributeFile's later writes to it may fail with a connection reset, depending on timing, and ENVOYER then gets no "OK" although the client sent every byte.
- ProtocolProofs.DistributeRefusedStoresNothing: holds for the model's refusal of names with '/' (see above), and in the corrected accept loop (Findings row 2). As written, the node's FileOutputStream exception for "a/b" ends the node's accept loop, so every node stops answering.
- ClientProofs.RecevoirRefused: a name with '/' ends the download with no answer. In the source "./f" stages f inside the server directory, and "../f" stages f in the working directory, before the fragments are fetched.
- Protocol.SubServerStep: a RETRIEVE of a name with '/' answers "Fichier introuvable". In the source "./x" and "/x" serve x, and "../x" serves x from the working directory.
- Protocol.SupprimerStep: a name with '/' is never in the directory, so the failure message is sent. In the source SUPPRIMER of "./x" deletes x, and SUPPRIMER of "../servers_config.txt" deletes the configuration file and answers "Fichier supprimé avec succès.".
- ProtocolProofs.UploadKeepsOtherFiles: holds in the corrected accept loop only (Findings row 2). As written, a node whose STORE throws answers no later connection, so assembling any file afterwards gets no answer from it.
- Protocol.ClientStep: each node always answers. Per-node liveness is not part of `State`, so a node stopped by an earlier failing connection (Findings row 2) is not modelled; as written, later uploads and downloads get no answer from it.
- JavaString.ParseInt: accepts only the ASCII digits 0-9. `Integer.parseInt` accepts every Unicode decimal digit through `Character.digit`, so "sub_server:h:１２３４５" with fullwidth digits loads port 12345 in the source and falls back to the defaults in the model. Configuration files are assumed ASCII.
- JavaString.ParseIntRejectsNonDigit: a non-ASCII decimal digit is counted as a non-digit here, while `Integer.parseInt` accepts it (see the line above).
- DataStreams.ReadUtf: decodes only ASCII 1..127. Byte 0, which readUTF reads as U+0000, and every multi-byte sequence are refused. The encoder covers every character, including the non-ASCII replies. Names of files are therefore ASCII without U+0000 in the model.
- JavaString.ToUpper: upper-cases ASCII letters only, and ignores the default locale. `String.toUpperCase()` uses the platform's locale: under a Turkish locale "lister" becomes "LİSTER" (dotted capital I), matches no case and is answered "COMMANDE INCONNUE", while the model dispatches it to LISTER. The commands compared are ASCII.
- The client's GUI, its file choosers and its writes to the downloads directory are left out. The client's requests and reading loops appear only as byte sequences (`EnvoyerRequest`, `RecevoirRequest`, `ReadUntilEmpty`).
- How many bytes one socket read returns is chosen by the environment (the network). The copy loops are proved for every such choice.
- The `(int)` casts of `Math.min(CHUNK_SIZE, …)` are left out. The minimum with 1024 always fits an int.
- Files of 2^63 bytes or more are left out. `File.length` is bounded by a long (`LongSized`).

## Findings

| source | as written | input that shows it | evidently intended | confidence | as-written member | corrected member |
|---|---|---|---|---|---|---|
| Projet-Reseauxv2/MainServer.java:192 | assembleFile reads the fragment length with readLong straight away. The node's reply starts with the writeUTF "OK" (lines 144-145), so the frame of "OK" and the high half of the length are taken as a length of about 6.5 * 10^14 bytes, and the copy runs past the end of the reply. A "Fichier introuvable" reply is misread the same way, so a missing fragment is never reported. | One node holding `a.txt.part0` = [1, 2, 3]: the download fails after staging [0, 0, 0, 3, 1, 2, 3] | read the status string first, give up ("Fichier introuvable") on anything but "OK", then read the length and the bytes | not executed | ProtocolProofs.AsWrittenRoundTripFails | ProtocolProofs.DistributeThenAssemble |
| Projet-Reseauxv2/MainServer.java:100-126 | the try-with-resources around each accepted connection has no catch, so the first connection that ends in an exception leaves the accept loop and stops the node for good | A STORE of `f.part0` declaring 5 bytes whose client sends 2: the node keeps the 2 bytes and answers no later connection | drop the failed connection and go on accepting | not executed | ProtocolProofs.ServeAsWrittenStopsAtShortUpload | ProtocolProofs.ServeGoesOnAfterShortUpload |
