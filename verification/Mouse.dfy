/**
 The PS/2 mouse (kernel/src/drivers/mouse_ps2.c): interrupts deliver single bytes, which are
 framed into packets; packets update buttons, position and scroll wheels and are reported to
 the registered handlers.
 */
module Mouse {
  import opened Words

  datatype Kind = Normal | Wheel | WheelButton

  function PacketSize(kind: Kind): (n: nat)
    ensures n == 3 || n == 4
  {
    if kind == Normal then 3 else 4
  }

  /** The bytes of a finished packet; a mouse without wheel sends no byte 3. */
  type Packet = p: seq<byte> | |p| >= 3 witness [0, 0, 0]

  function Byte3(p: Packet): byte {
    if |p| > 3 then p[3] else 0
  }

  /** The bit of weight w. */
  predicate Bit(b: byte, w: nat)
    requires w > 0
  {
    (b / w) % 2 == 1
  }

  /** The bit is set if the byte reaches w within each 2 * w. */
  lemma {:induction false} BitHalf(b: byte, w: nat)
    requires w > 0
    ensures Bit(b, w) <==> b % (2 * w) >= w
  {
    var h, r := b / (2 * w), b % (2 * w);
    assert b == (2 * w) * h + r && (2 * w) * h == w * (2 * h);
    if r >= w {
      assert w * (2 * h + 1) == w * (2 * h) + w;
      ModUnique(b, w, 2 * h + 1, r - w);
    } else {
      ModUnique(b, w, 2 * h, r);
    }
  }

  /** The bits that the packets use. */
  lemma {:induction false} BitIs(b: byte)
    ensures (Bit(b, 0x01) <==> b % 2 == 1) && (Bit(b, 0x02) <==> b % 4 >= 2) && (Bit(b, 0x04) <==> b % 8 >= 4)
    ensures (Bit(b, 0x08) <==> b % 16 >= 8) && (Bit(b, 0x10) <==> b % 32 >= 16) && (Bit(b, 0x20) <==> b % 64 >= 32)
  {
    BitHalf(b, 0x01);
    BitHalf(b, 0x02);
    BitHalf(b, 0x04);
    BitHalf(b, 0x08);
    BitHalf(b, 0x10);
    BitHalf(b, 0x20);
  }

  const ACK: byte := 0xFA

  /////////////////////////////////////////////////////////////////////////////
  // Framing
  /////////////////////////////////////////////////////////////////////////////

  /** The bytes of an unfinished packet, and the packets finished so far. */
  datatype Framing = Framing(pending: seq<byte>, packets: seq<Packet>)

  const IDLE := Framing([], [])

  /** What one interrupt does to them: a packet starts with a byte whose bit 3 is set. */
  function Receive(kind: Kind, f: Framing, data: byte): Framing {
    if data == ACK || (f.pending == [] && !Bit(data, 8)) then f
    else
      var pending := f.pending + [data];
      if |pending| >= PacketSize(kind) then Framing([], f.packets + [pending]) else f.(pending := pending)
  }

  function ReceiveAll(kind: Kind, f: Framing, stream: seq<byte>): Framing
    decreases |stream|
  {
    if stream == [] then f else ReceiveAll(kind, Receive(kind, f, stream[0]), stream[1..])
  }

  lemma {:induction false} ReceiveConcat(kind: Kind, f: Framing, a: seq<byte>, b: seq<byte>)
    ensures ReceiveAll(kind, f, a + b) == ReceiveAll(kind, ReceiveAll(kind, f, a), b)
    decreases |a|
  {
    if a == [] {
      assert a + b == b;
    } else {
      assert (a + b)[0] == a[0] && (a + b)[1..] == a[1..] + b;
      ReceiveConcat(kind, Receive(kind, f, a[0]), a[1..], b);
    }
  }

  /** A packet of this kind of mouse, without a byte that looks like an acknowledgement. */
  predicate IsPacket(kind: Kind, p: Packet) {
    |p| == (if kind == Normal then 3 else 4) && Bit(p[0], 8) && 0xFA !in p
  }

  /** Between packets every stream is either idle or inside a packet that began properly. */
  predicate WellFramed(kind: Kind, f: Framing) {
    && |f.pending| < PacketSize(kind) && (f.pending != [] ==> Bit(f.pending[0], 8)) && 0xFA !in f.pending
    && forall p <- f.packets :: IsPacket(kind, p)
  }

  lemma {:induction false} FramedOnce(kind: Kind, f: Framing, data: byte)
    requires WellFramed(kind, f)
    ensures WellFramed(kind, Receive(kind, f, data))
  {
  }

  /** What one byte that is no acknowledgement makes of a pending packet. */
  lemma {:induction false} FinishedOnce(kind: Kind, f: Framing, data: byte, stored: seq<byte>)
    requires WellFramed(kind, f) && data != ACK
    requires stored == if f.pending != [] || Bit(data, 8) then f.pending + [data] else []
    ensures |stored| <= PacketSize(kind)
    ensures |stored| == PacketSize(kind) ==> Receive(kind, f, data) == Framing([], f.packets + [stored])
    ensures |stored| < PacketSize(kind) ==> Receive(kind, f, data) == Framing(stored, f.packets)
  {
  }

  /** On any bytes whatever, only packets that begin with a set bit 3 are delivered. */
  lemma {:induction false} StaysWellFramed(kind: Kind, f: Framing, stream: seq<byte>)
    requires WellFramed(kind, f)
    ensures WellFramed(kind, ReceiveAll(kind, f, stream))
    decreases |stream|
  {
    if stream != [] {
      FramedOnce(kind, f, stream[0]);
      StaysWellFramed(kind, Receive(kind, f, stream[0]), stream[1..]);
    }
  }

  /** A packet on the wire, behind bytes that belong to none. */
  datatype Item = Item(junk: seq<byte>, packet: Packet)

  predicate IsItem(kind: Kind, item: Item) {
    && (forall b <- item.junk :: b == 0xFA || !Bit(b, 8))
    && |item.packet| == (if kind == Normal then 3 else 4) && Bit(item.packet[0], 8)
  }

  function Stream(items: seq<Item>): seq<byte>
    decreases |items|
  {
    if items == [] then [] else items[0].junk + items[0].packet + Stream(items[1..])
  }

  function Packets(items: seq<Item>): (ps: seq<Packet>)
    ensures |ps| == |items| && forall k | 0 <= k < |ps| :: ps[k] == items[k].packet
  {
    seq(|items|, k requires 0 <= k < |items| => items[k].packet)
  }

  lemma {:induction false} FirstPacket(items: seq<Item>)
    requires items != []
    ensures Packets(items) == [items[0].packet] + Packets(items[1..])
  {
  }

  lemma {:induction false} JunkSkipped(kind: Kind, f: Framing, junk: seq<byte>)
    requires f.pending == [] && forall b <- junk :: b == 0xFA || !Bit(b, 8)
    ensures ReceiveAll(kind, f, junk) == f
    decreases |junk|
  {
    if junk != [] {
      JunkSkipped(kind, f, junk[1..]);
    }
  }

  lemma {:induction false} RestReceived(kind: Kind, f: Framing, p: Packet, n: nat)
    requires IsPacket(kind, p) && n < PacketSize(kind) && f.pending == p[..n]
    ensures ReceiveAll(kind, f, p[n..]) == Framing([], f.packets + [p])
    decreases PacketSize(kind) - n
  {
    assert p[..n] + [p[n]] == p[..n + 1] && p[n..][0] == p[n] && p[n..][1..] == p[n + 1..];
    if n + 1 == PacketSize(kind) {
      assert p[..n + 1] == p && p[n + 1..] == [];
    } else {
      RestReceived(kind, Receive(kind, f, p[n]), p, n + 1);
    }
  }

  lemma {:induction false} ItemReceived(kind: Kind, f: Framing, item: Item)
    requires f.pending == [] && IsItem(kind, item) && 0xFA !in item.packet
    ensures ReceiveAll(kind, f, item.junk + item.packet) == Framing([], f.packets + [item.packet])
  {
    JunkSkipped(kind, f, item.junk);
    assert item.packet[..0] == [] && item.packet[0..] == item.packet;
    RestReceived(kind, f, item.packet, 0);
    ReceiveConcat(kind, f, item.junk, item.packet);
  }

  lemma {:induction false} ReceivedBoth(kind: Kind, f: Framing, a: seq<byte>, g: Framing, b: seq<byte>, h: Framing)
    requires ReceiveAll(kind, f, a) == g && ReceiveAll(kind, g, b) == h
    ensures ReceiveAll(kind, f, a + b) == h
  {
    ReceiveConcat(kind, f, a, b);
  }

  /** The framing behind these items. */
  function Delivered(f: Framing, items: seq<Item>): Framing {
    Framing([], f.packets + Packets(items))
  }

  lemma {:induction false} DeliveredOn(f: Framing, items: seq<Item>)
    requires items != []
    ensures Delivered(f, items) == Delivered(Framing([], f.packets + [items[0].packet]), items[1..])
    ensures Stream(items) == items[0].junk + items[0].packet + Stream(items[1..])
  {
    FirstPacket(items);
    assert f.packets + ([items[0].packet] + Packets(items[1..])) ==
           f.packets + [items[0].packet] + Packets(items[1..]);
  }

  lemma {:induction false} ItemsReceived(kind: Kind, f: Framing, items: seq<Item>)
    requires f.pending == [] && forall i <- items :: IsItem(kind, i) && 0xFA !in i.packet
    ensures ReceiveAll(kind, f, Stream(items)) == Delivered(f, items)
    decreases |items|
  {
    if items != [] {
      var item, next := items[0], Framing([], f.packets + [items[0].packet]);
      assert item in items;
      ItemReceived(kind, f, item);
      ItemsReceived(kind, next, items[1..]);
      DeliveredOn(f, items);
      ReceivedBoth(kind, f, item.junk + item.packet, next, Stream(items[1..]), Delivered(f, items));
    } else {
      assert f.packets + Packets(items) == f.packets;
    }
  }

  /**
   Packets with junk between them are delivered exactly as they were sent if and only if no byte
   of theirs is 0xFA, which the driver takes for an acknowledgement wherever it stands.
   */
  lemma {:induction false} Deframes(kind: Kind, items: seq<Item>)
    requires forall i <- items :: IsItem(kind, i)
    ensures ReceiveAll(kind, IDLE, Stream(items)).packets == Packets(items) <==> forall i <- items :: 0xFA !in i.packet
  {
    var received := ReceiveAll(kind, IDLE, Stream(items)).packets;
    if forall i <- items :: 0xFA !in i.packet {
      ItemsReceived(kind, IDLE, items);
      assert [] + Packets(items) == Packets(items);
    }
    if received == Packets(items) {
      StaysWellFramed(kind, IDLE, Stream(items));
      forall k | 0 <= k < |items|
        ensures 0xFA !in items[k].packet
      {
        assert received[k] == items[k].packet && received[k] in received;
      }
    }
  }

  /////////////////////////////////////////////////////////////////////////////
  // Packets
  /////////////////////////////////////////////////////////////////////////////

  datatype Button = Left | Middle | Right | Fourth | Fifth

  /** The calls of the registered handlers. */
  datatype Event =
    | Pressed(button: Button)
    | Released(button: Button)
    | Moved(x: int, y: int, dx: int, dy: int)
    | Scrolled(horizontal: int, vertical: int)

  datatype State = State(buttons: set<Button>, x: int, y: int, vertical: int, horizontal: int, events: seq<Event>)

  const START := State({}, 0, 0, 0, 0, [])

  /** The value of an int32_t. */
  function Int32(v: int): int {
    (v + 0x8000_0000) % 0x1_0000_0000 - 0x8000_0000
  }

  function SetButton(s: State, b: Button, down: bool): State {
    if down && b !in s.buttons then s.(buttons := s.buttons + {b}, events := s.events + [Pressed(b)])
    else if !down && b in s.buttons then s.(buttons := s.buttons - {b}, events := s.events + [Released(b)])
    else s
  }

  function SetButtons(kind: Kind, s: State, p: Packet): (t: State)
    ensures t.x == s.x && t.y == s.y
  {
    var s := SetButton(s, Left, Bit(p[0], 1));
    var s := SetButton(s, Middle, Bit(p[0], 4));
    var s := SetButton(s, Right, Bit(p[0], 2));
    if kind != WheelButton then s
    else SetButton(SetButton(s, Fourth, Bit(Byte3(p), 16)), Fifth, Bit(Byte3(p), 32))
  }

  function Move(s: State, dx: int, dy: int): State {
    var x, y := Int32(s.x + dx), Int32(s.y + dy);
    s.(x := x, y := y, events := s.events + if dx != 0 || dy != 0 then [Moved(x, y, dx, dy)] else [])
  }

  function ScrollBy(s: State, horizontal: int, vertical: int): State {
    s.(vertical := Int32(s.vertical + vertical), horizontal := Int32(s.horizontal + horizontal),
       events := s.events + [Scrolled(horizontal, vertical)])
  }

  function Scroll(kind: Kind, s: State, p: Packet): State
  {
    match kind
    case Normal => s
    case Wheel => ScrollBy(s, 0, SignedByte(Byte3(p)))
    case WheelButton =>
      var option := Byte3(p) % 16;
      if option == 0x1 then ScrollBy(s, 0, 1)
      else if option == 0x2 then ScrollBy(s, 1, 0)
      else if option == 0xE then ScrollBy(s, -1, 0)
      else if option == 0xF then ScrollBy(s, 0, -1)
      else s
  }

  /** mouse_process_packet. */
  function Process(kind: Kind, s: State, p: Packet): (t: State)
    ensures Bit(p[0], 8) ==> t.x == Int32(s.x + SignedByte(p[1])) && t.y == Int32(s.y + SignedByte(p[2]))
  {
    if !Bit(p[0], 8) then s
    else Scroll(kind, Move(SetButtons(kind, s, p), SignedByte(p[1]), SignedByte(p[2])), p)
  }

  function Fold(step: (State, Packet) -> State, s: State, ps: seq<Packet>): State
    decreases |ps|
  {
    if ps == [] then s else step(Fold(step, s, ps[..|ps| - 1]), ps[|ps| - 1])
  }

  function Steps(kind: Kind): (State, Packet) -> State {
    (s: State, p: Packet) => Process(kind, s, p)
  }

  function ProcessAll(kind: Kind, s: State, ps: seq<Packet>): State {
    Fold(Steps(kind), s, ps)
  }

  lemma {:induction false} LastPacket(kind: Kind, ps: seq<Packet>, p: Packet)
    ensures ProcessAll(kind, START, ps + [p]) == Process(kind, ProcessAll(kind, START, ps), p)
  {
    assert (ps + [p])[..|ps|] == ps;
  }

  /////////////////////////////////////////////////////////////////////////////
  // What the handlers see
  /////////////////////////////////////////////////////////////////////////////

  /** The buttons that are down after these events; None if a button goes down or up twice in a row. */
  function Down(events: seq<Event>): Option<set<Button>>
    decreases |events|
  {
    if events == [] then Some({})
    else
      var n := |events| - 1;
      match Down(events[..n])
      case None => None
      case Some(down) =>
        match events[n]
        case Pressed(b) => if b in down then None else Some(down + {b})
        case Released(b) => if b in down then Some(down - {b}) else None
        case _ => Some(down)
  }

  lemma {:induction false} DownStep(events: seq<Event>, e: Event)
    ensures (events + [e])[..|events|] == events && (events + [e])[|events|] == e
  {
  }

  predicate InStep(s: State) {
    Down(s.events) == Some(s.buttons)
  }

  lemma {:induction false} ButtonInStep(s: State, b: Button, down: bool)
    requires InStep(s)
    ensures InStep(SetButton(s, b, down))
  {
    DownStep(s.events, Pressed(b));
    DownStep(s.events, Released(b));
  }

  lemma {:induction false} ButtonsInStep(kind: Kind, s: State, p: Packet)
    requires InStep(s)
    ensures InStep(SetButtons(kind, s, p))
  {
    var s1 := SetButton(s, Left, Bit(p[0], 1));
    var s2 := SetButton(s1, Middle, Bit(p[0], 4));
    var s3 := SetButton(s2, Right, Bit(p[0], 2));
    ButtonInStep(s, Left, Bit(p[0], 1));
    ButtonInStep(s1, Middle, Bit(p[0], 4));
    ButtonInStep(s2, Right, Bit(p[0], 2));
    if kind == WheelButton {
      ButtonInStep(s3, Fourth, Bit(Byte3(p), 16));
      ButtonInStep(SetButton(s3, Fourth, Bit(Byte3(p), 16)), Fifth, Bit(Byte3(p), 32));
    }
  }

  lemma {:induction false} MoveInStep(s: State, dx: int, dy: int)
    requires InStep(s)
    ensures InStep(Move(s, dx, dy))
  {
    DownStep(s.events, Moved(Int32(s.x + dx), Int32(s.y + dy), dx, dy));
    assert s.events + [] == s.events;
  }

  lemma {:induction false} ScrollInStep(kind: Kind, s: State, p: Packet)
    requires InStep(s)
    ensures InStep(Scroll(kind, s, p))
  {
    forall h, v
      ensures InStep(ScrollBy(s, h, v))
    {
      DownStep(s.events, Scrolled(h, v));
    }
  }

  lemma {:induction false} ProcessInStep(kind: Kind, s: State, p: Packet)
    requires InStep(s)
    ensures InStep(Process(kind, s, p))
  {
    ButtonsInStep(kind, s, p);
    var t := SetButtons(kind, s, p);
    MoveInStep(t, SignedByte(p[1]), SignedByte(p[2]));
    ScrollInStep(kind, Move(t, SignedByte(p[1]), SignedByte(p[2])), p);
  }

  lemma {:induction false} FoldInStep(step: (State, Packet) -> State, ps: seq<Packet>)
    requires forall s, p | InStep(s) :: InStep(step(s, p))
    ensures InStep(Fold(step, START, ps))
    decreases |ps|
  {
    if ps != [] {
      FoldInStep(step, ps[..|ps| - 1]);
    }
  }

  /** The events of each button alternate, in step with mouse_buttons. */
  lemma {:induction false} ButtonsAlternate(kind: Kind, ps: seq<Packet>)
    ensures var s := ProcessAll(kind, START, ps); Down(s.events) == Some(s.buttons)
  {
    forall s, p | InStep(s)
      ensures InStep(Steps(kind)(s, p))
    {
      ProcessInStep(kind, s, p);
    }
    FoldInStep(Steps(kind), ps);
  }

  /** The number that a byte stands for in two's complement. */
  function Amount(b: byte): int {
    if b >= 0x80 then (b as int) - 0x100 else b
  }

  lemma {:induction false} AmountIs(b: byte)
    ensures Amount(b) == SignedByte(b)
  {
  }

  /** The sum of what byte k of the packets says, as signed numbers. */
  function Total(ps: seq<Packet>, k: nat): int
    requires k < 3
    decreases |ps|
  {
    if ps == [] then 0 else Total(ps[..|ps| - 1], k) + Amount(ps[|ps| - 1][k])
  }

  /** The same sum with wrap-around at every step. */
  function RunningTotal(ps: seq<Packet>, k: nat): int
    requires k < 3
    decreases |ps|
  {
    if ps == [] then 0 else Int32(RunningTotal(ps[..|ps| - 1], k) + SignedByte(ps[|ps| - 1][k]))
  }

  lemma {:induction false} RunningTotalIsSum(ps: seq<Packet>, k: nat)
    requires k < 3
    ensures RunningTotal(ps, k) == Int32(Total(ps, k))
    decreases |ps|
  {
    if ps != [] {
      RunningTotalIsSum(ps[..|ps| - 1], k);
      AmountIs(ps[|ps| - 1][k]);
      Int32Adds(Total(ps[..|ps| - 1], k), SignedByte(ps[|ps| - 1][k]));
    }
  }

  lemma {:induction false} PositionRuns(step: (State, Packet) -> State, ps: seq<Packet>)
    requires forall s, p | Bit(p[0], 8) ::
               step(s, p).x == Int32(s.x + SignedByte(p[1])) && step(s, p).y == Int32(s.y + SignedByte(p[2]))
    requires forall p <- ps :: Bit(p[0], 8)
    ensures var s := Fold(step, START, ps); s.x == RunningTotal(ps, 1) && s.y == RunningTotal(ps, 2)
    decreases |ps|
  {
    if ps != [] {
      PositionRuns(step, ps[..|ps| - 1]);
    }
  }

  /** A number in 32 bits: the one of that range that differs by a multiple of 2^32. */
  lemma {:induction false} Int32Is(v: int)
    ensures -0x8000_0000 <= Int32(v) < 0x8000_0000 && (v - Int32(v)) % 0x1_0000_0000 == 0
  {
  }

  /** The position is the sum of all movements, in 32 bits. */
  lemma {:induction false} PositionIsSum(kind: Kind, ps: seq<Packet>)
    requires forall p <- ps :: Bit(p[0], 8)
    ensures var s := ProcessAll(kind, START, ps); s.x == Int32(Total(ps, 1)) && s.y == Int32(Total(ps, 2))
  {
    PositionRuns(Steps(kind), ps);
    RunningTotalIsSum(ps, 1);
    RunningTotalIsSum(ps, 2);
  }

  lemma {:induction false} Int32Adds(v: int, d: int)
    ensures Int32(Int32(v) + d) == Int32(v + d)
  {
  }

  /** What a packet says of a button: a bit of byte 0, and of byte 3 for the two that only some mice have. */
  predicate SaysDown(kind: Kind, p: Packet, b: Button) {
    match b
    case Left => p[0] % 2 == 1
    case Right => p[0] % 4 >= 2
    case Middle => p[0] % 8 >= 4
    case Fourth => kind == WheelButton && |p| > 3 && p[3] % 32 >= 16
    case Fifth => kind == WheelButton && |p| > 3 && p[3] % 64 >= 32
  }

  /** The last packet decides which buttons are down. */
  ghost predicate ButtonsAreLast(kind: Kind, ps: seq<Packet>, down: set<Button>) {
    forall b: Button :: b in down <==> ps != [] && SaysDown(kind, ps[|ps| - 1], b)
  }

  lemma {:induction false} ButtonsSet(kind: Kind, s: State, p: Packet)
    requires kind != WheelButton ==> Fourth !in s.buttons && Fifth !in s.buttons
    ensures var down := SetButtons(kind, s, p).buttons;
            && (Left in down <==> Bit(p[0], 1)) && (Right in down <==> Bit(p[0], 2))
            && (Middle in down <==> Bit(p[0], 4))
            && (Fourth in down <==> kind == WheelButton && Bit(Byte3(p), 16))
            && (Fifth in down <==> kind == WheelButton && Bit(Byte3(p), 32))
  {
  }

  lemma {:induction false} ButtonsSaid(kind: Kind, s: State, p: Packet, b: Button)
    requires kind != WheelButton ==> Fourth !in s.buttons && Fifth !in s.buttons
    ensures b in SetButtons(kind, s, p).buttons <==> SaysDown(kind, p, b)
  {
    ButtonsSet(kind, s, p);
    BitIs(p[0]);
    BitIs(Byte3(p));
  }

  lemma {:induction false} ButtonsOf(kind: Kind, s: State, p: Packet)
    requires Bit(p[0], 8) && (kind != WheelButton ==> Fourth !in s.buttons && Fifth !in s.buttons)
    ensures forall b: Button :: b in Process(kind, s, p).buttons <==> SaysDown(kind, p, b)
  {
    ScrollKeepsButtons(kind, Move(SetButtons(kind, s, p), SignedByte(p[1]), SignedByte(p[2])), p);
    forall b: Button
      ensures b in SetButtons(kind, s, p).buttons <==> SaysDown(kind, p, b)
    {
      ButtonsSaid(kind, s, p, b);
    }
  }

  lemma {:induction false} ScrollKeepsButtons(kind: Kind, s: State, p: Packet)
    ensures Scroll(kind, s, p).buttons == s.buttons
  {
  }

  /** Whatever was down before, behind some packets exactly the buttons are down that the last one says. */
  lemma {:induction false} ButtonsShown(kind: Kind, ps: seq<Packet>)
    requires forall p <- ps :: Bit(p[0], 8)
    ensures ButtonsAreLast(kind, ps, ProcessAll(kind, START, ps).buttons)
    decreases |ps|
  {
    if ps != [] {
      var n := |ps| - 1;
      ButtonsShown(kind, ps[..n]);
      assert ps[n] in ps && ps[..n] + [ps[n]] == ps;
      LastPacket(kind, ps[..n], ps[n]);
      ButtonsOf(kind, ProcessAll(kind, START, ps[..n]), ps[n]);
    }
  }

  /** What byte 3 says of a wheel: a signed byte, or one of four codes in its low half. */
  function Turned(kind: Kind, p: Packet, vertical: bool): int {
    if kind == Normal || |p| < 4 then 0
    else if kind == Wheel then (if vertical then Amount(p[3]) else 0)
    else
      var code := p[3] % 16;
      if vertical then (if code == 1 then 1 else if code == 15 then -1 else 0)
      else if code == 2 then 1 else if code == 14 then -1 else 0
  }

  function TotalTurned(kind: Kind, ps: seq<Packet>, vertical: bool): int
    decreases |ps|
  {
    if ps == [] then 0
    else TotalTurned(kind, ps[..|ps| - 1], vertical) + Turned(kind, ps[|ps| - 1], vertical)
  }

  lemma {:induction false} ScrollTurns(kind: Kind, s: State, p: Packet)
    requires s.vertical == Int32(s.vertical) && s.horizontal == Int32(s.horizontal)
    ensures var t := Scroll(kind, s, p);
            && t.vertical == Int32(s.vertical + Turned(kind, p, true))
            && t.horizontal == Int32(s.horizontal + Turned(kind, p, false))
  {
  }

  lemma {:induction false} ProcessTurns(kind: Kind, s: State, p: Packet)
    requires Bit(p[0], 8) && s.vertical == Int32(s.vertical) && s.horizontal == Int32(s.horizontal)
    ensures var t := Process(kind, s, p);
            && t.vertical == Int32(s.vertical + Turned(kind, p, true))
            && t.horizontal == Int32(s.horizontal + Turned(kind, p, false))
  {
    var t := SetButtons(kind, s, p);
    assert t.vertical == s.vertical && t.horizontal == s.horizontal;
    ScrollTurns(kind, Move(t, SignedByte(p[1]), SignedByte(p[2])), p);
  }

  /** The scroll counters stand at v and h, in 32 bits. */
  predicate Counts(s: State, v: int, h: int) {
    s.vertical == Int32(v) && s.horizontal == Int32(h)
  }

  /** The scroll counters are the sums of what the packets say of the wheels, in 32 bits. */
  lemma {:induction false} ScrollIsSum(kind: Kind, ps: seq<Packet>)
    requires forall p <- ps :: Bit(p[0], 8)
    ensures Counts(ProcessAll(kind, START, ps), TotalTurned(kind, ps, true), TotalTurned(kind, ps, false))
  {
    ScrollSummed(kind, ps);
  }

  predicate Summed(kind: Kind, ps: seq<Packet>) {
    Counts(ProcessAll(kind, START, ps), TotalTurned(kind, ps, true), TotalTurned(kind, ps, false))
  }

  lemma {:induction false} ScrollSummed(kind: Kind, ps: seq<Packet>)
    requires forall p <- ps :: Bit(p[0], 8)
    ensures Summed(kind, ps)
    decreases |ps|
  {
    if ps == [] {
      assert Counts(START, 0, 0);
    } else {
      var before, p := ps[..|ps| - 1], ps[|ps| - 1];
      ScrollSummed(kind, before);
      assert p in ps && before + [p] == ps;
      ScrollOn(kind, before, p);
    }
  }

  lemma {:induction false} LastTurned(kind: Kind, ps: seq<Packet>, p: Packet, vertical: bool)
    ensures TotalTurned(kind, ps + [p], vertical) == TotalTurned(kind, ps, vertical) + Turned(kind, p, vertical)
  {
    assert (ps + [p])[..|ps|] == ps;
  }

  lemma {:induction false} ScrollOn(kind: Kind, ps: seq<Packet>, p: Packet)
    requires Bit(p[0], 8) && Summed(kind, ps)
    ensures Summed(kind, ps + [p])
  {
    LastPacket(kind, ps, p);
    LastTurned(kind, ps, p, true);
    LastTurned(kind, ps, p, false);
    TurnsAdd(kind, ProcessAll(kind, START, ps), p, TotalTurned(kind, ps, true), TotalTurned(kind, ps, false));
  }

  lemma {:induction false} TurnsAdd(kind: Kind, s: State, p: Packet, v: int, h: int)
    requires Bit(p[0], 8) && Counts(s, v, h)
    ensures Counts(Process(kind, s, p), v + Turned(kind, p, true), h + Turned(kind, p, false))
  {
    Int32Adds(v, 0);
    Int32Adds(h, 0);
    ProcessTurns(kind, s, p);
    Int32Adds(v, Turned(kind, p, true));
    Int32Adds(h, Turned(kind, p, false));
  }

  /** What the handlers have heard of the position and the wheels. */
  datatype Report = Report(x: int, y: int, horizontal: int, vertical: int)

  /**
   The report after these events; None if a movement is reported that is none, or whose position
   is not the one before plus the movement.
   */
  function Heard(events: seq<Event>): Option<Report>
    decreases |events|
  {
    if events == [] then Some(Report(0, 0, 0, 0))
    else
      var n := |events| - 1;
      match Heard(events[..n])
      case None => None
      case Some(r) =>
        match events[n]
        case Moved(x, y, dx, dy) =>
          if (dx != 0 || dy != 0) && x == Int32(r.x + dx) && y == Int32(r.y + dy) then Some(r.(x := x, y := y))
          else None
        case Scrolled(h, v) => Some(r.(horizontal := Int32(r.horizontal + h), vertical := Int32(r.vertical + v)))
        case _ => Some(r)
  }

  /** The handlers know the position and the counters, and these are 32-bit numbers. */
  predicate Reported(s: State) {
    && Heard(s.events) == Some(Report(s.x, s.y, s.horizontal, s.vertical))
    && s.x == Int32(s.x) && s.y == Int32(s.y)
  }

  lemma {:induction false} ButtonReported(s: State, b: Button, down: bool)
    requires Reported(s)
    ensures Reported(SetButton(s, b, down))
  {
    DownStep(s.events, Pressed(b));
    DownStep(s.events, Released(b));
  }

  lemma {:induction false} ButtonsReported(kind: Kind, s: State, p: Packet)
    requires Reported(s)
    ensures Reported(SetButtons(kind, s, p))
  {
    forall t, b, down | Reported(t)
      ensures Reported(SetButton(t, b, down))
    {
      ButtonReported(t, b, down);
    }
  }

  lemma {:induction false} MoveReported(s: State, dx: int, dy: int)
    requires Reported(s)
    ensures Reported(Move(s, dx, dy))
  {
    DownStep(s.events, Moved(Int32(s.x + dx), Int32(s.y + dy), dx, dy));
    assert s.events + [] == s.events;
    Int32Adds(s.x + dx, 0);
    Int32Adds(s.y + dy, 0);
  }

  lemma {:induction false} ScrollReported(kind: Kind, s: State, p: Packet)
    requires Reported(s)
    ensures Reported(Scroll(kind, s, p))
  {
    forall h, v
      ensures Reported(ScrollBy(s, h, v))
    {
      DownStep(s.events, Scrolled(h, v));
    }
  }

  /** From the events alone the handlers know the position and the scroll counters. */
  lemma {:induction false} HandlersKnow(kind: Kind, ps: seq<Packet>)
    ensures var s := ProcessAll(kind, START, ps);
            Heard(s.events) == Some(Report(s.x, s.y, s.horizontal, s.vertical))
  {
    AllReported(kind, ps);
  }

  lemma {:induction false} AllReported(kind: Kind, ps: seq<Packet>)
    ensures Reported(ProcessAll(kind, START, ps))
    decreases |ps|
  {
    if ps != [] {
      var n := |ps| - 1;
      AllReported(kind, ps[..n]);
      assert ps[..n] + [ps[n]] == ps;
      LastPacket(kind, ps[..n], ps[n]);
      var s, p := ProcessAll(kind, START, ps[..n]), ps[n];
      ButtonsReported(kind, s, p);
      var t := SetButtons(kind, s, p);
      MoveReported(t, SignedByte(p[1]), SignedByte(p[2]));
      ScrollReported(kind, Move(t, SignedByte(p[1]), SignedByte(p[2])), p);
    }
  }

  /////////////////////////////////////////////////////////////////////////////
  // The driver
  /////////////////////////////////////////////////////////////////////////////

  /** The static variables of the driver. */
  class Driver {
    const kind: Kind
    var ackReceived: bool
    var byteCounter: nat
    const bytes: array<byte>
    var buttons: set<Button>
    var x: int
    var y: int
    var vertical: int
    var horizontal: int
    ghost var events: seq<Event>
    ghost var received: Framing

    constructor (kind: Kind)
      ensures this.kind == kind && Valid() && fresh(bytes) && received == IDLE
    {
      this.kind := kind;
      ackReceived, byteCounter, bytes := false, 0, new byte[4](_ => 0);
      buttons, x, y, vertical, horizontal, events := {}, 0, 0, 0, 0, [];
      received := IDLE;
    }

    ghost function View(): State
      reads this
    {
      State(buttons, x, y, vertical, horizontal, events)
    }

    /** The state is what the packets delivered so far make of it. */
    ghost predicate Valid()
      reads this, bytes
    {
      && bytes.Length == 4 && byteCounter < PacketSize(kind) && received.pending == bytes[..byteCounter]
      && WellFramed(kind, received)
      && View() == ProcessAll(kind, START, received.packets)
    }

    /** mouse_irq_handler. */
    method Interrupt(data: byte)
      requires Valid()
      modifies this, bytes
      ensures Valid() && received == Receive(kind, old(received), data)
    {
      if data == ACK {
        ackReceived := true;
        return;
      }
      Store(data);
      FramedOnce(kind, received, data);
      FinishedOnce(kind, received, data, bytes[..byteCounter]);
      ghost var packets := received.packets;
      received := Receive(kind, received, data);
      if byteCounter == PacketSize(kind) {
        assert received == Framing([], packets + [bytes[..byteCounter]]);
        Deliver(bytes[..byteCounter], packets);
        byteCounter := 0;
      } else {
        assert received == Framing(bytes[..byteCounter], packets);
      }
    }

    /** The byte is kept unless it could only start a packet and does not. */
    method Store(data: byte)
      requires bytes.Length == 4 && byteCounter < 4
      modifies this`byteCounter, bytes
      ensures byteCounter <= 4
      ensures bytes[..byteCounter] ==
              if old(byteCounter) > 0 || Bit(data, 8) then old(bytes[..byteCounter]) + [data] else []
    {
      bytes[byteCounter] := data;
      if byteCounter > 0 || Bit(data, 8) {
        assert bytes[..byteCounter + 1] == bytes[..byteCounter] + [data];
        byteCounter := byteCounter + 1;
      }
    }

    /** One more packet behind those delivered so far. */
    method Deliver(p: Packet, ghost before: seq<Packet>)
      requires View() == ProcessAll(kind, START, before)
      modifies this`buttons, this`x, this`y, this`vertical, this`horizontal, this`events
      ensures View() == ProcessAll(kind, START, before + [p])
    {
      LastPacket(kind, before, p);
      ProcessPacket(p);
    }

    /** mouse_process_packet on the bytes received. */
    method ProcessPacket(p: Packet)
      modifies this`buttons, this`x, this`y, this`vertical, this`horizontal, this`events
      ensures View() == Process(kind, old(View()), p)
    {
      if !Bit(p[0], 8) {
        return;
      }
      UpdateButtons(p);
      UpdatePosition(SignedByte(p[1]), SignedByte(p[2]));
      UpdateWheel(p);
    }

    method UpdateButtons(p: Packet)
      modifies this`buttons, this`events
      ensures View() == SetButtons(kind, old(View()), p)
    {
      UpdateButton(Left, Bit(p[0], 1));
      UpdateButton(Middle, Bit(p[0], 4));
      UpdateButton(Right, Bit(p[0], 2));
      if kind == WheelButton {
        UpdateButton(Fourth, Bit(Byte3(p), 16));
        UpdateButton(Fifth, Bit(Byte3(p), 32));
      }
    }

    method UpdatePosition(dx: int, dy: int)
      modifies this`x, this`y, this`events
      ensures View() == Move(old(View()), dx, dy)
    {
      x, y := Int32(x + dx), Int32(y + dy);
      if dx != 0 || dy != 0 {
        events := events + [Moved(x, y, dx, dy)];
      }
    }

    method UpdateWheel(p: Packet)
      modifies this`horizontal, this`vertical, this`events
      ensures View() == Scroll(kind, old(View()), p)
    {
      if kind == Wheel {
        UpdateScroll(0, SignedByte(Byte3(p)));
      } else if kind == WheelButton {
        var option := Byte3(p) % 16;
        if option == 0x1 {
          UpdateScroll(0, 1);
        } else if option == 0x2 {
          UpdateScroll(1, 0);
        } else if option == 0xE {
          UpdateScroll(-1, 0);
        } else if option == 0xF {
          UpdateScroll(0, -1);
        }
      }
    }

    method UpdateButton(b: Button, down: bool)
      modifies this`buttons, this`events
      ensures View() == SetButton(old(View()), b, down)
    {
      if down && b !in buttons {
        buttons, events := buttons + {b}, events + [Pressed(b)];
      } else if !down && b in buttons {
        buttons, events := buttons - {b}, events + [Released(b)];
      }
    }

    method UpdateScroll(dh: int, dv: int)
      modifies this`horizontal, this`vertical, this`events
      ensures View() == ScrollBy(old(View()), dh, dv)
    {
      vertical, horizontal := Int32(vertical + dv), Int32(horizontal + dh);
      events := events + [Scrolled(dh, dv)];
    }
  }
}
