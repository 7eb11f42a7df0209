/**
 The TFTP server of fon-flash.cpp, whose answer depends only on the acknowledged block, and a
 lock-step client of RFC 1350 at the other end of a network that loses, repeats and reorders.
 */
module Tftp {
  import opened Words

  const BLOCK := 512

  datatype Packet =
    | Rrq(name: nat)                  // file_1, file_2 or file_3, as 0, 1 and 2; anything else is unknown
    | Ack(block: U16)
    | Data(block: U16, bytes: Bytes)
    | Other

  datatype Reply = Silent | Send(packet: Packet) | Exit

  /** (tftp_size + 511) / 512 */
  function Blocks(file: Bytes): nat { (|file| + 511) / BLOCK }

  /** Image files are rounded up to whole flash pages, so they are whole blocks. */
  predicate Whole(file: Bytes) { |file| % BLOCK == 0 }

  /** The answer to an acknowledgement of `block`. */
  function Answer(file: Bytes, block: U16): Reply
    requires Whole(file)
  {
    if block < Blocks(file) then
      Send(Data((block as int + 1) % TWO16, file[BLOCK * block as int..BLOCK * block as int + BLOCK]))
    else if block == Blocks(file) then Send(Data((block as int + 1) % TWO16, []))
    else Silent
  }

  // ----- The server in place -----

  class Server {
    const files: seq<Bytes>
    var buf: Bytes                 // tftp_buf and tftp_size
    var sendAt: nat                // tftp_send

    predicate Valid()
      reads this
    {
      |files| == 3 && (forall i :: 0 <= i < 3 ==> Whole(files[i])) && Whole(buf)
    }

    constructor (images: seq<Bytes>)
      requires |images| == 3 && forall i :: 0 <= i < 3 ==> Whole(images[i])
      ensures Valid() && files == images && buf == []
    {
      files, buf, sendAt := images, [], 0;
    }

    /** fon_flash_tftp_appcall */
    method Appcall(p: Packet) returns (r: Reply)
      requires Valid()
      modifies this
      ensures Valid()
      ensures p.Rrq? && p.name < 3 ==> buf == files[p.name] && r == Answer(buf, 0)
      ensures p.Ack? ==> buf == old(buf) && r == Answer(buf, p.block)
      ensures (p.Rrq? && p.name >= 3) || p.Data? || p.Other? ==> buf == old(buf) && r == Exit
    {
      var block: U16 := 0;
      match p {
        case Rrq(name) =>
          if name >= 3 {
            return Exit;
          }
          buf := files[name];
        case Ack(b) =>
          block := b;
        case _ =>
          return Exit;
      }
      var nextBlock: U16 := (block as int + 1) % TWO16;
      r := Silent;
      if block < Blocks(buf) {
        sendAt := BLOCK * block;
        r := Send(Data(nextBlock, buf[sendAt..sendAt + BLOCK]));
      } else if block == Blocks(buf) {
        sendAt := BLOCK * block;
        r := Send(Data(nextBlock, []));
      }
    }
  }

  // ----- The transfer -----

  /** A client that has the blocks before `expected`; RFC 1350 ends with a block of less than 512 bytes. */
  datatype Client = Client(expected: nat, data: Bytes, done: bool)

  const NEW := Client(1, [], false)

  /** What the client asks for, and asks for again when it hears nothing. */
  function Request(c: Client, name: nat): Packet {
    if c.expected == 1 then Rrq(name) else Ack((c.expected - 1) % TWO16)
  }

  function Receive(c: Client, p: Packet): Client {
    if p.Data? && !c.done && p.block == c.expected % TWO16 then
      Client(c.expected + 1, c.data + p.bytes, |p.bytes| < BLOCK)
    else c
  }

  /** Everything ever put on the network, in either direction; any of it may arrive at any time, any number of times. */
  datatype System = System(client: Client, toServer: set<Packet>, toClient: set<Packet>)

  datatype Event =
    | ServerHears(p: Packet)
    | ClientHears(p: Packet)
    | ClientRepeats

  function Reaction(file: Bytes, name: nat, p: Packet): Reply
    requires Whole(file)
  {
    if p.Ack? then Answer(file, p.block) else if p == Rrq(name) then Answer(file, 0) else Silent
  }

  function Step(file: Bytes, name: nat, s: System, e: Event): System
    requires Whole(file)
  {
    match e
    case ServerHears(p) =>
      if p !in s.toServer then s
      else
        var r := Reaction(file, name, p);
        if r.Send? then s.(toClient := s.toClient + {r.packet}) else s
    case ClientHears(p) =>
      if p !in s.toClient then s
      else
        var c := Receive(s.client, p);
        s.(client := c, toServer := s.toServer + {if p.Data? then Ack(p.block) else Request(c, name)})
    case ClientRepeats => s.(toServer := s.toServer + {Request(s.client, name)})
  }

  function Run(file: Bytes, name: nat, events: seq<Event>): System
    requires Whole(file)
  {
    if events == [] then System(NEW, {Rrq(name)}, {})
    else var n := |events| - 1; Step(file, name, Run(file, name, events[..n]), events[n])
  }

  /** The block with a given number, the last one empty. */
  function Numbered(file: Bytes, n: nat): Bytes
    requires Whole(file) && 1 <= n <= Blocks(file) + 1
  {
    if n <= Blocks(file) then file[BLOCK * (n - 1)..BLOCK * n] else []
  }

  /** The first number that a 16-bit block number can stand for. */
  function Number(block: U16): nat { if block == 0 then TWO16 else block }

  ghost predicate Honest(file: Bytes, p: Packet)
    requires Whole(file)
  {
    p.Data? && Number(p.block) <= Blocks(file) + 1 && p.bytes == Numbered(file, Number(p.block))
  }

  ghost predicate AllHonest(file: Bytes, ps: set<Packet>)
    requires Whole(file)
  {
    forall p :: p in ps ==> Honest(file, p)
  }

  /** What the client holds, and that it is done when the empty block has come. */
  ghost predicate InOrder(file: Bytes, c: Client)
    requires Whole(file)
  {
    var n := Blocks(file);
    && 1 <= c.expected <= n + 2
    && (c.done <==> c.expected == n + 2)
    && c.data == (if c.done then file else file[..BLOCK * (c.expected - 1)])
  }

  ghost predicate Inv(file: Bytes, s: System)
    requires Whole(file)
  {
    AllHonest(file, s.toClient) && InOrder(file, s.client)
  }

  lemma AnswerIsHonest(file: Bytes, block: U16)
    requires Whole(file) && Blocks(file) < TWO16
    ensures Answer(file, block).Send? ==> Honest(file, Answer(file, block).packet)
  {
    NextNumber(block);
  }

  lemma NextNumber(block: U16)
    ensures Number((block as int + 1) % TWO16) == block as int + 1
  {}

  lemma ReceiveKeeps(file: Bytes, c: Client, p: Packet)
    requires Whole(file) && Blocks(file) < TWO16 && InOrder(file, c) && Honest(file, p)
    ensures InOrder(file, Receive(c, p))
  {
    if !c.done && p.block == c.expected % TWO16 {
      assert Number(p.block) == c.expected;
      NextBlock(file, c.expected);
    }
  }

  lemma NextBlock(file: Bytes, n: nat)
    requires Whole(file) && 1 <= n <= Blocks(file) + 1
    ensures BLOCK * (n - 1) <= |file|
    ensures if n <= Blocks(file) then |Numbered(file, n)| == BLOCK && file[..BLOCK * n] == file[..BLOCK * (n - 1)] + Numbered(file, n)
            else Numbered(file, n) == [] && file[..BLOCK * (n - 1)] == file
  {}

  lemma ServerKeeps(file: Bytes, name: nat, s: System, p: Packet)
    requires Whole(file) && Blocks(file) < TWO16 && AllHonest(file, s.toClient)
    ensures var t := Step(file, name, s, ServerHears(p)); AllHonest(file, t.toClient) && t.client == s.client
  {
    ReactionIsHonest(file, name, p);
    OneMoreHonest(file, s.toClient, Reaction(file, name, p));
  }

  lemma ReactionIsHonest(file: Bytes, name: nat, p: Packet)
    requires Whole(file) && Blocks(file) < TWO16
    ensures Reaction(file, name, p).Send? ==> Honest(file, Reaction(file, name, p).packet)
  {
    AnswerIsHonest(file, if p.Ack? then p.block else 0);
  }

  lemma OneMoreHonest(file: Bytes, ps: set<Packet>, r: Reply)
    requires Whole(file) && AllHonest(file, ps) && (r.Send? ==> Honest(file, r.packet))
    ensures r.Send? ==> AllHonest(file, ps + {r.packet})
  {}

  lemma StepKeeps(file: Bytes, name: nat, s: System, e: Event)
    requires Whole(file) && Blocks(file) < TWO16 && Inv(file, s)
    ensures Inv(file, Step(file, name, s, e))
  {
    match e
    case ServerHears(p) => ServerKeeps(file, name, s, p);
    case ClientHears(p) => if p in s.toClient { ReceiveKeeps(file, s.client, p); }
    case ClientRepeats =>
  }

  lemma {:induction false} RunKeeps(file: Bytes, name: nat, events: seq<Event>)
    requires Whole(file) && Blocks(file) < TWO16
    ensures Inv(file, Run(file, name, events))
  {
    if events != [] {
      var n := |events| - 1;
      RunKeeps(file, name, events[..n]);
      StepKeeps(file, name, Run(file, name, events[..n]), events[n]);
    }
  }

  /** The client holds a prefix of the file, and is done only with all of it. */
  predicate Safe(file: Bytes, c: Client) {
    c.data <= file && (c.done ==> c.data == file)
  }

  lemma InvIsSafe(file: Bytes, s: System)
    requires Whole(file) && Inv(file, s)
    ensures Safe(file, s.client)
  {}

  // ----- Exchanges without loss -----

  /** The block that the client's request acknowledges. */
  function Asked(c: Client): U16 { if c.expected == 0 then 0 else (c.expected - 1) % TWO16 }

  /** The request is sent again, heard, and its answer heard. */
  function Exchanged(file: Bytes, name: nat, events: seq<Event>): (es: seq<Event>)
    requires Whole(file)
  {
    var c := Run(file, name, events).client;
    var q, r := Request(c, name), Answer(file, Asked(c));
    events + [ClientRepeats] + [ServerHears(q)] + (if r.Send? then [ClientHears(r.packet)] else [])
  }

  lemma RunMore(file: Bytes, name: nat, events: seq<Event>, e: Event)
    requires Whole(file)
    ensures Run(file, name, events + [e]) == Step(file, name, Run(file, name, events), e)
  {
    assert (events + [e])[..|events|] == events;
  }

  lemma ReactionToRequest(file: Bytes, name: nat, c: Client)
    requires Whole(file) && c.expected >= 1
    ensures Reaction(file, name, Request(c, name)) == Answer(file, Asked(c))
  {}

  /** An exchange gives the client the answer to its request. */
  lemma ExchangeAnswers(file: Bytes, name: nat, events: seq<Event>)
    requires Whole(file) && Run(file, name, events).client.expected >= 1
    requires Answer(file, Asked(Run(file, name, events).client)).Send?
    ensures var c := Run(file, name, events).client;
            Run(file, name, Exchanged(file, name, events)).client == Receive(c, Answer(file, Asked(c)).packet)
  {
    var s := Run(file, name, events);
    var q, r := Request(s.client, name), Answer(file, Asked(s.client));
    ReactionToRequest(file, name, s.client);
    var e1 := events + [ClientRepeats];
    RunMore(file, name, events, ClientRepeats);
    RunMore(file, name, e1, ServerHears(q));
    RunMore(file, name, e1 + [ServerHears(q)], ClientHears(r.packet));
  }

  /** It takes the client a block further, from any state in which it is not done. */
  lemma TransferGoesOn(file: Bytes, name: nat, events: seq<Event>)
    requires Whole(file) && Blocks(file) < TWO16 && !Run(file, name, events).client.done
    ensures Run(file, name, Exchanged(file, name, events)).client.expected == Run(file, name, events).client.expected + 1
  {
    RunKeeps(file, name, events);
    AnswerFits(file, Run(file, name, events).client);
    ExchangeAnswers(file, name, events);
  }

  lemma AnswerFits(file: Bytes, c: Client)
    requires Whole(file) && c.expected >= 1 && Asked(c) <= Blocks(file)
    ensures var r := Answer(file, Asked(c)); r.Send? && r.packet.Data? && r.packet.block == c.expected % TWO16
    ensures Asked(c) < Blocks(file) ==> |Answer(file, Asked(c)).packet.bytes| == BLOCK
  {
    AskedNext(c.expected);
  }

  lemma AskedNext(n: nat)
    requires n >= 1
    ensures ((n - 1) % TWO16 + 1) % TWO16 == n % TWO16
  {}

  lemma {:induction false} FinishFrom(file: Bytes, name: nat, events: seq<Event>) returns (es: seq<Event>)
    requires Whole(file) && Blocks(file) < TWO16
    ensures events <= es && Run(file, name, es).client.done && Run(file, name, es).client.data == file
    decreases Blocks(file) + 2 - Run(file, name, events).client.expected
  {
    RunKeeps(file, name, events);
    if Run(file, name, events).client.done {
      es := events;
    } else {
      TransferGoesOn(file, name, events);
      RunKeeps(file, name, Exchanged(file, name, events));
      es := FinishFrom(file, name, Exchanged(file, name, events));
    }
  }

  /** After whatever has happened, a run can go on until the client has all of the file. */
  lemma TransferCanFinish(file: Bytes, name: nat, events: seq<Event>)
    requires Whole(file) && Blocks(file) < TWO16
    ensures exists es :: events <= es && Run(file, name, es).client.done && Run(file, name, es).client.data == file
  {
    var es := FinishFrom(file, name, events);
  }

  /** With more blocks than numbers there is no end: the client is sent the first blocks over again. */
  lemma {:induction false} Overrun(file: Bytes, name: nat, j: nat) returns (es: seq<Event>)
    requires Whole(file) && Blocks(file) >= TWO16
    ensures var c := Run(file, name, es).client; c.expected == j + 1 && !c.done && |c.data| == BLOCK * j
  {
    if j == 0 {
      es := [];
    } else {
      var before := Overrun(file, name, j - 1);
      var c := Run(file, name, before).client;
      AnswerFits(file, c);
      ExchangeAnswers(file, name, before);
      es := Exchanged(file, name, before);
    }
  }

  // ----- The end -----

  /** Nothing but full blocks is on its way to the client, and it is not done. */
  predicate NoLastBlock(s: System) {
    !s.client.done && forall p :: p in s.toClient ==> p.Data? ==> |p.bytes| == BLOCK
  }

  lemma NoLastStep(file: Bytes, name: nat, s: System, e: Event)
    requires Whole(file) && Blocks(file) >= TWO16 && NoLastBlock(s)
    ensures NoLastBlock(Step(file, name, s, e))
  {}

  lemma {:induction false} NoLastRun(file: Bytes, name: nat, events: seq<Event>)
    requires Whole(file) && Blocks(file) >= TWO16
    ensures NoLastBlock(Run(file, name, events))
  {
    if events != [] {
      var n := |events| - 1;
      NoLastRun(file, name, events[..n]);
      NoLastStep(file, name, Run(file, name, events[..n]), events[n]);
    }
  }

  /** A transfer can come to an end if and only if the file has fewer than 65536 blocks: otherwise no run is ever done. */
  lemma EndIsReachable(file: Bytes, name: nat)
    requires Whole(file)
    ensures (exists events :: Run(file, name, events).client.done) <==> Blocks(file) < TWO16
  {
    if Blocks(file) < TWO16 {
      TransferCanFinish(file, name, []);
    } else {
      forall events ensures !Run(file, name, events).client.done {
        NoLastRun(file, name, events);
      }
    }
  }

  /**
   In every run the client holds a prefix of the file and is done only with all of it, if and only if
   the file has fewer than 65536 blocks.
   */
  lemma TransferIsSafe(file: Bytes, name: nat)
    requires Whole(file)
    ensures (forall events :: Safe(file, Run(file, name, events).client)) <==> Blocks(file) < TWO16
  {
    if Blocks(file) < TWO16 {
      forall events ensures Safe(file, Run(file, name, events).client) {
        RunKeeps(file, name, events);
        InvIsSafe(file, Run(file, name, events));
      }
    } else {
      var es := Overrun(file, name, Blocks(file) + 1);
      assert !Safe(file, Run(file, name, es).client);
    }
  }
}
