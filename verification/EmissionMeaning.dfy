/** What a call leaves in the emitter, read off the binding table and the callsite:
    which binding applies, which way the surface faces, where it sits, what names it
    and its channel, and what an update does to it. */
module EmissionMeaning {
  import opened Wrappers
  import opened Text
  import opened Ordering
  import opened Surface
  import opened BindingTable
  import opened Emitter

  // ---- Which binding applies -----------------------------------------------

  ghost predicate Internet(c: Callsite) {
    c.socketFamily == Some(Inet) || c.socketFamily == Some(Inet6)
  }

  /** The argument starts like a path. */
  ghost predicate NamesPath(c: Callsite) {
    exists rest :: c.extractedArgument == Some("/" + rest) || c.extractedArgument == Some("." + rest)
  }

  /** The upper half of the thirteen lowest bits: bit 12 is set. */
  ghost predicate AsksForPipe(c: Callsite) {
    c.mknodMode.Some? && c.mknodMode.value % 8192 >= 4096
  }

  /** Each kind with the evidence it asks for; the kinds not listed are never emitted. */
  ghost predicate Allowed(kind: ChannelKind, c: Callsite) {
    var f := c.functionName;
    || (kind == UnixSocket && c.socketFamily == Some(UnixFamily))
    || (kind == UnixSocket && c.socketFamily == None && f != "socket" && NamesPath(c))
    || (kind == TcpSocket && Internet(c) && f in ["listen", "accept", "send", "recv"])
    || (kind == TcpSocket && Internet(c) && f in ["socket", "bind", "connect"] && c.socketType == Some(Stream))
    || (kind == UdpSocket && Internet(c) && f in ["sendto", "recvfrom"])
    || (kind == UdpSocket && Internet(c) && f in ["socket", "bind", "connect"] && c.socketType == Some(Datagram))
    || (kind == SharedMemory && (f == "mmap" ==> c.mmapFlags == Some(Shared)))
    || (kind == NamedPipe && (f == "mknod" ==> AsksForPipe(c)))
    || kind in [AnonymousPipe, MessageQueue, Semaphore, ProcessSignal, InterCoreChannel, SharedArrayBuffer,
                AmqpQueue, KafkaTopic, NatsSubject]
  }

  /** The entry is for this language and function, of the family asked for if any, and
      the callsite shows what its kind asks for. */
  ghost predicate Applies(e: BindingEntry, c: Callsite) {
    && e.language == c.language && e.functionName == c.functionName
    && (c.apiFamily == None || c.apiFamily == Some(e.apiFamily))
    && Allowed(e.channelKind, c)
  }

  lemma NamesPathIff(c: Callsite)
    ensures LooksLikePath(c.extractedArgument) <==> NamesPath(c)
  {
    if LooksLikePath(c.extractedArgument) {
      var argument := c.extractedArgument.value;
      assert argument == "/" + argument[1..] || argument == "." + argument[1..];
    }
  }

  lemma AsksForPipeIff(c: Callsite)
    ensures AsksForPipe(c) <==> c.mknodMode.Some? && HasFifoBit(c.mknodMode.value)
  {
    if c.mknodMode.Some? {
      var mode := c.mknodMode.value;
      assert mode / 4096 == 2 * (mode / 8192) + mode % 8192 / 4096;
    }
  }

  lemma UnixIff(e: BindingEntry, c: Callsite)
    requires e.channelKind == UnixSocket
    ensures MatchesContext(e, c) <==> Allowed(e.channelKind, c)
  {
    NamesPathIff(c);
    hide NamesPath, LooksLikePath, AsksForPipe;
    assert c.socketFamily.None? || c.socketFamily == Some(c.socketFamily.value);
  }

  lemma InternetIff(e: BindingEntry, c: Callsite)
    requires e.channelKind == TcpSocket || e.channelKind == UdpSocket
    ensures MatchesContext(e, c) <==> Allowed(e.channelKind, c)
  {
    hide NamesPath, LooksLikePath, AsksForPipe;
  }

  lemma OthersIff(e: BindingEntry, c: Callsite)
    requires !IsSocketKind(e.channelKind)
    ensures MatchesContext(e, c) <==> Allowed(e.channelKind, c)
  {
    AsksForPipeIff(c);
    hide NamesPath, LooksLikePath, AsksForPipe, HasFifoBit, Internet, IsInet;
  }

  lemma AppliesIff(e: BindingEntry, c: Callsite)
    ensures Suits(e, c) <==> Applies(e, c)
  {
    hide MatchesContext, Allowed;
    assert c.apiFamily.Some? ==> c.apiFamily == Some(c.apiFamily.value);
    if e.channelKind == UnixSocket {
      UnixIff(e, c);
    } else if e.channelKind == TcpSocket || e.channelKind == UdpSocket {
      InternetIff(e, c);
    } else {
      OthersIff(e, c);
    }
  }

  // ---- What is emitted -----------------------------------------------------

  /** A signed 64-bit position as an unsigned 32-bit one: nothing below zero, the rest
      modulo 2^32. */
  ghost predicate Narrowed(x: int, n: nat) {
    n < 0x1_0000_0000 && (x < 0 ==> n == 0) && (x >= 0 ==> exists k: nat :: x == n + 0x1_0000_0000 * k)
  }

  lemma NarrowedIs(x: int)
    ensures Narrowed(x, ToU32(x))
  {
    if x >= 0 {
      var k: nat := x / 0x1_0000_0000;
      assert x == ToU32(x) + 0x1_0000_0000 * k;
    }
  }

  /** Senders and providers provide, receivers and consumers consume, the rest does both. */
  ghost predicate Faces(role: DetectionRole, direction: Direction) {
    && (direction == Consumer <==> role == ConsumerRole || role == Receive)
    && (direction == Provider <==> role == ProviderRole || role == Send)
    && (direction == Bidirectional <==> role == Setup || role == BidirectionalRole)
  }

  ghost predicate SameHostKind(kind: ChannelKind) {
    kind in [UnixSocket, NamedPipe, AnonymousPipe, SharedMemory, MessageQueue, Semaphore]
  }

  /** Where the interaction reaches, by the entry's heuristic. */
  ghost predicate Scoped(e: BindingEntry, c: Callsite, scope: BoundaryScope, locality: EndpointLocality) {
    && (e.scopeHeuristic == Fixed ==>
      && (e.fixedScope == None ==> scope == UnknownScope)
      && (e.fixedScope != None ==> e.fixedScope == Some(scope))
      && locality == if SameHostKind(e.channelKind) then SameHostNamed else UnknownLocality)
    && (e.scopeHeuristic == Path ==> scope == InterProcess && locality == SameHostNamed)
    && (e.scopeHeuristic == ArgFamily || e.scopeHeuristic == Sockaddr ==>
      && (c.socketFamily == Some(UnixFamily) <==> scope == InterProcess)
      && (c.socketFamily == Some(UnixFamily) <==> locality == SameHostNamed)
      && (e.scopeHeuristic == ArgFamily && c.socketFamily == Some(CanFamily) <==> scope == InterDevice)
      && scope in [InterProcess, InterDevice, UnknownScope] && locality in [SameHostNamed, UnknownLocality])
  }

  lemma FacesIs(role: DetectionRole)
    ensures Faces(role, role.Direction())
  {
  }

  lemma ScopedIs(e: BindingEntry, c: Callsite)
    ensures Scoped(e, c, ScopeAndLocality(e, c).0, ScopeAndLocality(e, c).1)
  {
  }

  /** The surface shows the entry and the callsite, and its uid prints the repository,
      file, first line and column, kind and direction. */
  ghost predicate Depicts(repo: string, e: BindingEntry, c: Callsite, s: BoundarySurface) {
    && s.repoUid == repo && s.sourceFile == c.sourceFile && s.symbolStableKey == c.enclosingSymbolKey
    && s.channelKind == e.channelKind && Faces(e.role, s.direction)
    && Narrowed(c.location.lineStart, s.lineStart) && Narrowed(c.location.lineEnd, s.lineEnd)
    && Narrowed(c.location.colStart, s.colStart) && Narrowed(c.location.colEnd, s.colEnd)
    && Scoped(e, c, s.boundaryScope, s.endpointLocality)
    && s.surfaceUid == PrintedUid(repo, c.sourceFile, s.lineStart, s.colStart, e.channelKind, s.direction)
  }

  ghost function PrintedUid(repo: string, file: string, line: nat, col: nat, kind: ChannelKind, d: Direction): string {
    "bi:" + repo + ":" + file + ":" + Decimal(line) + ":" + Decimal(col) + ":" + kind.AsStr() + ":" + d.AsStr()
  }

  /** How directions and the kinds that are emitted print. */
  lemma PrintedDirections()
    ensures Provider.AsStr() == "provider" && Consumer.AsStr() == "consumer"
    ensures Bidirectional.AsStr() == "bidirectional"
  {
  }

  lemma PrintedSockets()
    ensures UnixSocket.AsStr() == "unix_socket" && TcpSocket.AsStr() == "tcp_socket"
    ensures UdpSocket.AsStr() == "udp_socket" && MessageQueue.AsStr() == "message_queue"
  {
  }

  lemma PrintedLocalKinds()
    ensures NamedPipe.AsStr() == "named_pipe" && AnonymousPipe.AsStr() == "anonymous_pipe"
    ensures SharedMemory.AsStr() == "shared_memory" && Semaphore.AsStr() == "semaphore"
    ensures ProcessSignal.AsStr() == "process_signal"
  {
  }

  lemma PrintedBrokers()
    ensures InterCoreChannel.AsStr() == "inter_core_channel" && AmqpQueue.AsStr() == "amqp_queue"
    ensures SharedArrayBuffer.AsStr() == "shared_array_buffer"
    ensures KafkaTopic.AsStr() == "kafka_topic" && NatsSubject.AsStr() == "nats_subject"
  {
  }

  /** The channel of a surface is identified by the argument, or else by file and line
      as written; its uid ends in sixteen digits that spell the hash of the identity. */
  ghost predicate Carries(e: BindingEntry, c: Callsite, surfaceUid: string, channel: Channel) {
    && channel.surfaceUid == surfaceUid && channel.channelKind == e.channelKind
    && (c.extractedArgument != None ==> Some(channel.channelIdentity) == c.extractedArgument)
    && (c.extractedArgument == None && c.location.lineStart >= 0 ==>
      channel.channelIdentity == c.sourceFile + ":" + Decimal(c.location.lineStart))
    && (c.extractedArgument == None && c.location.lineStart < 0 ==>
      channel.channelIdentity == c.sourceFile + ":-" + Decimal(-c.location.lineStart))
    && exists digits ::
      && channel.channelUid == "ch:" + surfaceUid + ":" + digits
      && Spells(digits, Polynomial(Bytes(channel.channelIdentity)) % 0x1_0000_0000_0000_0000)
  }

  /** Sixteen hexadecimal digits for the number. */
  ghost predicate Spells(digits: string, n: nat) {
    |digits| == 16 && (forall i :: 0 <= i < 16 ==> IsHexDigit(digits[i])) && HexValue(digits) == n
  }

  ghost predicate IsHexDigit(c: char) {
    '0' <= c <= '9' || 'a' <= c <= 'f'
  }

  ghost function HexValue(digits: string): int {
    if digits == "" then 0
    else
      var d := Last(digits);
      16 * HexValue(Front(digits)) + if '0' <= d <= '9' then d as int - '0' as int else d as int - 'a' as int + 10
  }

  ghost function Bytes(s: string): seq<nat> {
    if s == "" then [] else Utf8(s[0]) + Bytes(s[1..])
  }

  /** The bytes as the coefficients of a polynomial in 31, the last one constant. */
  ghost function Polynomial(bytes: seq<nat>): nat {
    if bytes == [] then 0 else 31 * Polynomial(Front(bytes)) + Last(bytes)
  }

  ghost function Power(base: nat, n: nat): nat {
    if n == 0 then 1 else base * Power(base, n - 1)
  }

  /** The digits printed are those of the number, cut to that many. */
  lemma {:induction false} HexMeaning(n: nat, width: nat)
    ensures |Hex(n, width)| == width && forall i :: 0 <= i < width ==> IsHexDigit(Hex(n, width)[i])
    ensures Power(16, width) > 0 && HexValue(Hex(n, width)) == n % Power(16, width)
  {
    if width > 0 {
      HexMeaning(n / 16, width - 1);
      ModuloStep(n, Power(16, width - 1));
      hide HexValue, IsHexDigit;
      HexPush(Hex(n / 16, width - 1), n % 16);
    }
  }

  lemma HexPush(digits: string, d: nat)
    requires d < 16
    ensures var c := if d < 10 then Digit(d) else ('a' as int + d - 10) as char;
      IsHexDigit(c) && HexValue(digits + [c]) == 16 * HexValue(digits) + d
  {
    assert forall c: char :: Front(digits + [c]) == digits;
  }

  lemma ModuloStep(n: nat, p: nat)
    requires p > 0
    ensures n % (16 * p) == 16 * (n / 16 % p) + n % 16
  {
    var q, r := n / 16 / p, n / 16 % p;
    assert n / 16 == p * q + r;
    var x := 16 * r + n % 16;
    assert n == (16 * p) * q + x && 0 <= x < 16 * p;
    Remainder(n, 16 * p, q, x);
  }

  lemma Remainder(n: nat, m: nat, q: nat, x: nat)
    requires x < m && n == m * q + x
    ensures n % m == x
  {
    var d, r := n / m, n % m;
    assert n == m * d + r;
    if d > q {
      Multiples(m, q + 1, d);
    } else if d < q {
      Multiples(m, d + 1, q);
    }
  }

  lemma Multiples(m: nat, a: nat, b: nat)
    requires a <= b
    ensures m * a <= m * b
  {
  }

  /** Wrapping at every byte is wrapping once at the end. */
  lemma {:induction false} WrappedOnce(bytes: seq<nat>)
    ensures HashBytes(bytes, 0) == Polynomial(bytes) % 0x1_0000_0000_0000_0000
  {
    if bytes != [] {
      WrappedOnce(Front(bytes));
      FrontLast(bytes);
      HashConcat(Front(bytes), [Last(bytes)], 0);
      WrapStep(Polynomial(Front(bytes)), Last(bytes));
    }
  }

  lemma WrapStep(p: nat, b: nat)
    ensures (p % 0x1_0000_0000_0000_0000 * 31 + b) % 0x1_0000_0000_0000_0000 ==
      (31 * p + b) % 0x1_0000_0000_0000_0000
  {
    var q := p / 0x1_0000_0000_0000_0000;
    assert 31 * p + b == p % 0x1_0000_0000_0000_0000 * 31 + b + 31 * q * 0x1_0000_0000_0000_0000;
  }

  lemma {:induction false} HashConcat(a: seq<nat>, b: seq<nat>, acc: nat)
    ensures HashBytes(a + b, acc) == HashBytes(b, HashBytes(a, acc))
  {
    if a == [] {
      assert a + b == b;
    } else {
      assert (a + b)[0] == a[0] && (a + b)[1..] == a[1..] + b;
      HashConcat(a[1..], b, (acc * 31 + a[0]) % 0x1_0000_0000_0000_0000);
    }
  }

  lemma {:induction false} HashOfBytes(s: string, acc: nat)
    ensures IdentityHash(s, acc) == HashBytes(Bytes(s), acc)
  {
    if s != "" {
      HashOfBytes(s[1..], HashBytes(Utf8(s[0]), acc));
      HashConcat(Utf8(s[0]), Bytes(s[1..]), acc);
    }
  }

  lemma ChannelDigits(identity: string)
    ensures Spells(Hex(IdentityHash(identity, 0), 16), Polynomial(Bytes(identity)) % 0x1_0000_0000_0000_0000)
  {
    hide *;
    HashOfBytes(identity, 0);
    WrappedOnce(Bytes(identity));
    DigitsSpell(IdentityHash(identity, 0), 16);
  }

  lemma DigitsSpell(n: nat, width: nat)
    requires n < 0x1_0000_0000_0000_0000 && width == 16
    ensures Spells(Hex(n, width), n)
  {
    HexMeaning(n, width);
    SixteenDigits();
    hide Hex, HexValue, Power;
  }

  lemma SixteenDigits()
    ensures Power(16, 16) == 0x1_0000_0000_0000_0000
  {
    assert Power(16, 4) == 0x1_0000;
    assert Power(16, 8) == 0x1_0000_0000;
    assert Power(16, 12) == 0x1_0000_0000_0000;
  }

  // ---- One emission --------------------------------------------------------

  /** The first entry of the table that applies to the callsite. */
  ghost predicate FirstApplying(table: seq<BindingEntry>, c: Callsite, p: nat) {
    && p < |table| && Applies(table[p], c)
    && forall q :: 0 <= q < p ==> !Applies(table[q], c)
  }

  /** The facts show one entry and the callsite. Shared memory alone is listed for a
      second projection. */
  ghost predicate ShowsEntry(repo: string, e: BindingEntry, c: Callsite, facts: EmittedFacts) {
    && Depicts(repo, e, c, facts.surface)
    && Carries(e, c, facts.surface.surfaceUid, facts.channel)
    && (facts.requiresDualProjection <==> e.channelKind == SharedMemory || e.channelKind == SharedArrayBuffer)
  }

  lemma SurfaceShows(repo: string, e: BindingEntry, c: Callsite)
    ensures Depicts(repo, e, c, BuildSurface(repo, e, c))
  {
    NarrowedIs(c.location.lineStart);
    NarrowedIs(c.location.lineEnd);
    NarrowedIs(c.location.colStart);
    NarrowedIs(c.location.colEnd);
    FacesIs(e.role);
    ScopedIs(e, c);
    hide ToU32, Narrowed, Faces, Scoped, ScopeAndLocality, Decimal, ChannelKind.AsStr, Direction.AsStr;
  }

  lemma ChannelShows(e: BindingEntry, c: Callsite, surfaceUid: string)
    ensures Carries(e, c, surfaceUid, BuildChannel(e, c, surfaceUid))
  {
    var channel := BuildChannel(e, c, surfaceUid);
    ChannelDigits(channel.channelIdentity);
    hide Spells, Hex, IdentityHash, Polynomial, Bytes, Decimal;
    assert c.sourceFile + ":" + ("-" + Decimal(if c.location.lineStart < 0 then -c.location.lineStart else 0))
        == c.sourceFile + ":-" + Decimal(if c.location.lineStart < 0 then -c.location.lineStart else 0);
  }

  /** A call is emitted if and only if some entry applies, as the first such entry says:
      the surface faces the way of the entry's role and sits where the call begins. */
  lemma EmitMeaning(repo: string, table: seq<BindingEntry>, c: Callsite)
    ensures match EmitFacts(repo, table, c)
      case None => forall p :: 0 <= p < |table| ==> !Applies(table[p], c)
      case Some(facts) => exists p: nat :: FirstApplying(table, c, p) && ShowsEntry(repo, table[p], c, facts)
  {
    SelectionIsFirst(table, c);
    forall p | 0 <= p < |table| ensures Suits(table[p], c) <==> Applies(table[p], c) {
      AppliesIff(table[p], c);
    }
    hide SelectBinding, Suits, Applies;
    if SelectBinding(table, c).Some? {
      var p: nat :| FirstPassing(table, c, p) && table[p] == SelectBinding(table, c).value;
      SurfaceShows(repo, table[p], c);
      ChannelShows(table[p], c, BuildSurface(repo, table[p], c).surfaceUid);
      hide BuildSurface, BuildChannel, Depicts, Carries;
      assert FirstApplying(table, c, p) && ShowsEntry(repo, table[p], c, EmitFacts(repo, table, c).value);
    }
  }

  /** What is stored: surface and channel under their own uids unless those are taken,
      and one more listing for what needs a second projection. Nothing else changes. */
  lemma EmissionStored(repo: string, table: seq<BindingEntry>, st: State, c: Callsite)
    ensures EmitFacts(repo, table, c) == None ==> AfterEmit(repo, table, st, c) == st
    ensures EmitFacts(repo, table, c) != None ==>
      var facts, after := EmitFacts(repo, table, c).value, AfterEmit(repo, table, st, c);
      var uid, channelUid := facts.surface.surfaceUid, facts.channel.channelUid;
      && after.surfaces.Keys == st.surfaces.Keys + {uid} && after.channels.Keys == st.channels.Keys + {channelUid}
      && (forall k :: k in st.surfaces ==> after.surfaces[k] == st.surfaces[k])
      && (forall k :: k in st.channels ==> after.channels[k] == st.channels[k])
      && (uid !in st.surfaces ==> after.surfaces[uid] == facts.surface)
      && (channelUid !in st.channels ==> after.channels[channelUid] == facts.channel)
      && after.dual == st.dual + if facts.requiresDualProjection then [uid] else []
  {
    hide EmitFacts;
  }

  // ---- One update ----------------------------------------------------------

  /** The first listing of `x` is replaced, if there is one. */
  lemma {:induction false} FirstListing(s: seq<string>, x: string, y: string)
    ensures x !in s ==> ReplaceFirst(s, x, y) == s
    ensures forall i: nat :: i < |s| && s[i] == x && x !in s[..i] ==> ReplaceFirst(s, x, y) == s[i := y]
  {
    if s != [] {
      FirstListing(s[1..], x, y);
      forall i: nat | 0 < i < |s| && s[i] == x && x !in s[..i] ensures ReplaceFirst(s, x, y) == s[i := y] {
        TailListing(s, x, y, i);
        hide ReplaceFirst;
      }
    }
  }

  lemma TailListing(s: seq<string>, x: string, y: string, i: nat)
    requires 0 < i < |s| && s[i] == x && x !in s[..i]
    requires s[1..][i - 1] == x && x !in s[1..][..i - 1] ==> ReplaceFirst(s[1..], x, y) == s[1..][i - 1 := y]
    ensures ReplaceFirst(s, x, y) == s[i := y]
  {
    assert s[1..][..i - 1] == s[..i][1..];
    assert s[0] == s[..i][0];
    assert [s[0]] + s[1..][i - 1 := y] == s[i := y];
  }

  /** What an update does to a stored surface that faces another way: it leaves its uid
      for the one that prints the new direction, and no other surface changes unless it
      sits there. Any other update does nothing. */
  lemma UpdateMeaning(repo: string, st: State, uid: string, d: Direction)
    requires WellKeyed(repo, st)
    ensures uid !in st.surfaces ==>
      && AfterUpdate(st, uid, d) == st
      && UpdateResult(st, uid, d) == Err(InvalidState("surface not found for direction update: " + uid))
    ensures uid in st.surfaces && st.surfaces[uid].direction == d ==>
      AfterUpdate(st, uid, d) == st && UpdateResult(st, uid, d) == Ok(uid)
    ensures uid in st.surfaces && st.surfaces[uid].direction != d ==>
      var s, after := st.surfaces[uid], AfterUpdate(st, uid, d);
      var n := PrintedUid(repo, s.sourceFile, s.lineStart, s.colStart, s.channelKind, d);
      && n != uid && UpdateResult(st, uid, d) == Ok(n)
      && after.surfaces.Keys == st.surfaces.Keys - {uid} + {n}
      && after.surfaces[n] == s.(direction := d, surfaceUid := n)
      && forall k :: k in st.surfaces && k != uid && k != n ==> after.surfaces[k] == st.surfaces[k]
  {
    if uid in st.surfaces && st.surfaces[uid].direction != d {
      TurnedUid(repo, st, uid, d);
      TurnedIs(repo, st, uid, d);
      hide WellKeyed, Turned, UidOf, PrintedUid, Repointed, ReplaceFirst;
    }
  }

  /** What follows the surface to its new uid: its channels, otherwise unchanged, and its
      first listing. */
  lemma UpdateFollows(repo: string, st: State, uid: string, d: Direction)
    requires WellKeyed(repo, st) && uid in st.surfaces && st.surfaces[uid].direction != d
    ensures var s, after := st.surfaces[uid], AfterUpdate(st, uid, d);
      var n := PrintedUid(repo, s.sourceFile, s.lineStart, s.colStart, s.channelKind, d);
      && after.channels.Keys == st.channels.Keys
      && (forall k :: k in st.channels && st.channels[k].surfaceUid == uid ==>
        after.channels[k] == st.channels[k].(surfaceUid := n))
      && (forall k :: k in st.channels && st.channels[k].surfaceUid != uid ==> after.channels[k] == st.channels[k])
      && (uid !in st.dual ==> after.dual == st.dual)
      && (forall i: nat :: i < |st.dual| && st.dual[i] == uid && uid !in st.dual[..i] ==>
        after.dual == st.dual[i := n])
  {
    TurnedIs(repo, st, uid, d);
    hide WellKeyed, Turned, UidOf, PrintedUid;
    FirstListing(st.dual, uid, Turned(st.surfaces[uid], d).surfaceUid);
    hide ReplaceFirst;
  }

  lemma TurnedIs(repo: string, st: State, uid: string, d: Direction)
    requires WellKeyed(repo, st) && uid in st.surfaces
    ensures var s := st.surfaces[uid];
      var n := PrintedUid(repo, s.sourceFile, s.lineStart, s.colStart, s.channelKind, d);
      Turned(s, d) == s.(direction := d, surfaceUid := n)
  {
    hide Decimal, ChannelKind.AsStr, Direction.AsStr;
  }

  // ---- Two calls of the embedded table -------------------------------------

  const MQ_SEND := BindingEntry(C, "posix_mqueue", "mq_send", Send, MessageQueue, Fixed, Some(InterProcess), None,
                                Some("Send message to queue."))

  /** Sending provides. */
  lemma SendExample(c: Callsite)
    requires c.language == C && c.functionName == "mq_send" && c.apiFamily == None && c.sourceFile == "a.c"
    requires c.location.lineStart == 3 && c.location.colStart == 2
    ensures EmitFacts("r", [MQ_SEND], c).Some?
    ensures var surface := EmitFacts("r", [MQ_SEND], c).value.surface;
      && surface.direction == Provider && surface.boundaryScope == InterProcess
      && surface.surfaceUid == "bi:r:a.c:3:2:message_queue:provider"
  {
    EmitMeaning("r", [MQ_SEND], c);
    SendApplies(c);
    hide EmitFacts, Applies, ShowsEntry;
    assert Applies([MQ_SEND][0], c);
    var facts := EmitFacts("r", [MQ_SEND], c).value;
    var p: nat :| FirstApplying([MQ_SEND], c, p) && ShowsEntry("r", [MQ_SEND][p], c, facts);
    SendShown(c, facts);
  }

  lemma SendApplies(c: Callsite)
    requires c.language == C && c.functionName == "mq_send" && c.apiFamily == None
    ensures Applies(MQ_SEND, c)
  {
  }

  lemma SendShown(c: Callsite, facts: EmittedFacts)
    requires ShowsEntry("r", MQ_SEND, c, facts) && c.sourceFile == "a.c"
    requires c.location.lineStart == 3 && c.location.colStart == 2
    ensures facts.surface.direction == Provider && facts.surface.boundaryScope == InterProcess
    ensures facts.surface.surfaceUid == "bi:r:a.c:3:2:message_queue:provider"
  {
    hide Carries;
    SendUid();
    hide PrintedUid;
  }

  lemma SendUid()
    ensures PrintedUid("r", "a.c", 3, 2, MessageQueue, Provider) == "bi:r:a.c:3:2:message_queue:provider"
  {
    PrintedDirections();
    PrintedSockets();
    assert Decimal(3) == "3" && Decimal(2) == "2";
    hide Decimal, ChannelKind.AsStr, Direction.AsStr;
    assert "bi:" + "r" + ":" + "a.c" + ":" + "3" + ":" + "2" + ":" == "bi:r:a.c:3:2:";
    assert "bi:r:a.c:3:2:" + "message_queue" + ":" + "provider" == "bi:r:a.c:3:2:message_queue:provider";
  }

  /** With `socket` declared as setup only, as in the embedded table, a `socket` call is
      emitted facing both ways. */
  lemma SocketFacesBoth(repo: string, table: seq<BindingEntry>, c: Callsite)
    requires forall e :: e in table && e.functionName == "socket" ==> e.role == Setup
    requires c.functionName == "socket" && EmitFacts(repo, table, c).Some?
    ensures EmitFacts(repo, table, c).value.surface.direction == Bidirectional
  {
    EmitMeaning(repo, table, c);
    hide EmitFacts, Allowed, Carries, Narrowed, Scoped;
  }
}
