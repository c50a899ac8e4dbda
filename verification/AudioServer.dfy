/** The audio server: the guest-memory allocator with its bounded free table, the port table, and the
    block counter shared by all ports (`libs/audio/cellAudio.c`). */
module AudioServer {
  import opened Basics

  const PORT_MAX := 8
  const FREE_MAX := 32
  const BLOCK_SAMPLES := 256
  const VM_BASE := 0x5000_0000
  const VM_SIZE := 0x0040_0000
  const INDEX_SIZE := 16

  /** A block of the guest window; size 0 is an empty entry. */
  datatype Block = Block(addr: U32, size: U32)

  const EMPTY := Block(0, 0)

  /** A port slot. `shown` is the read index published in guest memory. */
  datatype Port = Port(inUse: bool, running: bool, nChannel: U64, nBlock: U64, bufSize: U32,
                       portAddr: U32, readIdxAddr: U32, readIndex: U64, shown: U64)

  datatype Vm = Vm(ready: bool, bump: U32, free: seq<Block>)

  datatype State = State(vm: Vm, ports: seq<Port>, counter: U64)

  datatype Status = Ok | ParamError | PortFull | NoMemory | NotOpen | AlreadyRunning | NotRunning | TagNotFound

  /** The C rounding to 128 bytes, in 32 bits. */
  function Round(size: U32): U32 { (size + 0x7F) % M32 / 128 * 128 }

  /** The first entry of that size, or the table length. */
  function FindSize(free: seq<Block>, size: U32): (i: nat)
    ensures i <= |free|
    ensures i < |free| ==> free[i].size == size
    ensures forall j :: 0 <= j < i ==> free[j].size != size
  {
    if free == [] then 0 else if free[0].size == size then 0 else FindSize(free[1..], size) + 1
  }

  /** audio_vm_alloc: an exact-size freed block first, else bump; address 0 when neither works. */
  function Alloc(vm: Vm, request: U32, commitOk: bool): (Vm, U32) {
    var size := Round(request);
    if !vm.ready && !commitOk then (vm, 0)
    else
      var i := FindSize(vm.free, size);
      var v := vm.(ready := true);
      if i < |vm.free| then (v.(free := vm.free[i := EMPTY]), vm.free[i].addr)
      else if vm.bump + size > VM_BASE + VM_SIZE then (v, 0)
      else (v.(bump := vm.bump + size), vm.bump)
  }

  /** audio_vm_free: into the first empty entry; dropped when the table is full. */
  function Free(vm: Vm, addr: U32, request: U32): Vm {
    if addr == 0 then vm
    else
      var i := FindSize(vm.free, 0);
      if i < |vm.free| then vm.(free := vm.free[i := Block(addr, Round(request))]) else vm
  }

  predicate ValidChannels(n: U64) { n == 2 || n == 8 }

  predicate ValidBlocks(n: U64) { n == 2 || n == 4 || n == 8 || n == 16 || n == 32 }

  function RingBytes(nChannel: U64, nBlock: U64): (n: nat)
    requires ValidChannels(nChannel) && ValidBlocks(nBlock)
    ensures 4096 <= n <= 262144 && n % 4096 == 0
  {
    nBlock * BLOCK_SAMPLES * nChannel * 4
  }

  function FreeSlot(ports: seq<Port>): (i: nat)
    ensures i <= |ports|
    ensures i < |ports| ==> !ports[i].inUse
    ensures forall j :: 0 <= j < i ==> ports[j].inUse
  {
    if ports == [] then 0 else if !ports[0].inUse then 0 else FreeSlot(ports[1..]) + 1
  }

  /** cellAudioPortOpen after the parameters were read: status, new state, port number. */
  function Open(s: State, nChannel: U64, nBlock: U64, commitOk: bool): (Status, State, nat) {
    if !ValidChannels(nChannel) || !ValidBlocks(nBlock) then (ParamError, s, 0)
    else
      var found := FreeSlot(s.ports);
      if found >= |s.ports| then (PortFull, s, 0)
      else
        var bytes := RingBytes(nChannel, nBlock);
        var (v1, ring) := Alloc(s.vm, bytes, commitOk);
        var (v2, index) := Alloc(v1, INDEX_SIZE, commitOk);
        var p := s.ports[found].(running := false, nChannel := nChannel, nBlock := nBlock, bufSize := bytes,
                                 readIndex := 0);
        if ring == 0 || index == 0
        then (NoMemory, State(v2, s.ports[found := p.(inUse := false)], s.counter), 0)
        else (Ok, State(v2, s.ports[found := p.(inUse := true, portAddr := ring, readIdxAddr := index, shown := 0)],
                        s.counter), found)
  }

  /** cellAudioPortClose. */
  function Close(s: State, portNum: U32): (Status, State) {
    if portNum >= |s.ports| || !s.ports[portNum].inUse then (NotOpen, s)
    else
      var p := s.ports[portNum];
      var vm := Free(Free(s.vm, p.portAddr, p.bufSize), p.readIdxAddr, INDEX_SIZE);
      (Ok, State(vm, s.ports[portNum := p.(inUse := false, running := false, portAddr := 0, readIdxAddr := 0)],
                 s.counter))
  }

  function SetRunning(s: State, portNum: U32, run: bool): (Status, State) {
    if portNum >= |s.ports| || !s.ports[portNum].inUse then (NotOpen, s)
    else if s.ports[portNum].running == run then (if run then AlreadyRunning else NotRunning, s)
    else (Ok, s.(ports := s.ports[portNum := s.ports[portNum].(running := run)]))
  }

  /** The window is committed at the first allocation, and only then may that fail. */
  lemma CommitsOnce(vm: Vm, request: U32, commitOk: bool)
    ensures var (v, addr) := Alloc(vm, request, commitOk);
            && (addr != 0 ==> v.ready) && (vm.ready ==> v.ready && Alloc(vm, request, true) == (v, addr))
            && (!vm.ready && !commitOk ==> (v, addr) == (vm, 0))
  {
  }

  /** Opening: each status iff its cause; on success the first free slot holds a stopped port with what was asked for,
      at the start of its ring, and no other slot changes. */
  lemma OpenGives(s: State, nChannel: U64, nBlock: U64, commitOk: bool)
    ensures var (status, n, port) := Open(s, nChannel, nBlock, commitOk);
            var valid := (nChannel == 2 || nChannel == 8) && nBlock in {2, 4, 8, 16, 32};
            && (status == ParamError <==> !valid)
            && (status == PortFull <==> valid && forall i :: 0 <= i < |s.ports| ==> s.ports[i].inUse)
            && status in {Ok, ParamError, PortFull, NoMemory} && n.counter == s.counter && |n.ports| == |s.ports|
            && (status == ParamError || status == PortFull ==> n == s)
            && (forall i :: 0 <= i < |s.ports| && s.ports[i].inUse ==> n.ports[i] == s.ports[i])
            && (status == NoMemory ==> forall i :: 0 <= i < |s.ports| ==> n.ports[i].inUse == s.ports[i].inUse)
            && (status == Ok ==>
                  && port < |s.ports| && !s.ports[port].inUse && (forall i :: 0 <= i < port ==> s.ports[i].inUse)
                  && (forall i :: 0 <= i < |s.ports| && i != port ==> n.ports[i] == s.ports[i])
                  && var p := n.ports[port];
                     && p.inUse && !p.running && p.nChannel == nChannel && p.nBlock == nBlock
                     && p.bufSize == nBlock * 256 * nChannel * 4 && p.portAddr != 0 && p.readIdxAddr != 0
                     && p.readIndex == 0 && p.shown == 0)
  {
    hide Alloc;
    var f := FreeSlot(s.ports);
    if f < |s.ports| {
      assert !s.ports[f].inUse;
    }
  }

  /** Closing: an open port is gone, stopped and without addresses, and no other changes; else nothing does. */
  lemma CloseGives(s: State, portNum: U32)
    ensures var (status, n) := Close(s, portNum);
            var open := portNum < |s.ports| && s.ports[portNum].inUse;
            && (status == Ok <==> open) && (status == NotOpen <==> !open) && (!open ==> n == s)
            && n.counter == s.counter && |n.ports| == |s.ports|
            && (open ==>
                  var p := n.ports[portNum];
                  !p.inUse && !p.running && p.portAddr == 0 && p.readIdxAddr == 0)
            && (forall i :: 0 <= i < |s.ports| && i != portNum ==> n.ports[i] == s.ports[i])
  {
    hide Free;
  }

  /** Mixing moves the counter by one and every running port with a ring by one slot, and nothing else. */
  lemma MixGives(s: State)
    ensures var n := Mix(s);
            && n.counter == (s.counter + 1) % 0x1_0000_0000_0000_0000 && n.vm == s.vm && |n.ports| == |s.ports|
            && forall i :: 0 <= i < |s.ports| ==>
                 var p, q := s.ports[i], n.ports[i];
                 if p.inUse && p.running && p.portAddr != 0 && p.nBlock > 0 then
                   q.readIndex == (p.readIndex + 1) % 0x1_0000_0000_0000_0000 && q.shown == q.readIndex % p.nBlock
                   && q == p.(readIndex := q.readIndex, shown := q.shown)
                 else q == p
  {
  }

  /** Starting and stopping: the status says what was wrong, a success leaves the port as asked, and nothing else
      changes either way. */
  lemma RunningIsSet(s: State, portNum: U32, run: bool)
    ensures var (status, n) := SetRunning(s, portNum, run);
            && (status == NotOpen <==> portNum >= |s.ports| || !s.ports[portNum].inUse)
            && (portNum < |s.ports| && s.ports[portNum].inUse ==>
                  && (status == AlreadyRunning <==> run && s.ports[portNum].running)
                  && (status == NotRunning <==> !run && !s.ports[portNum].running))
            && status in {Ok, NotOpen, AlreadyRunning, NotRunning}
            && (status != Ok ==> n == s)
            && (status == Ok ==>
                  n.ports[portNum] == s.ports[portNum].(running := run) && n.ports[portNum].running == run)
            && n.vm == s.vm && n.counter == s.counter && |n.ports| == |s.ports|
            && forall i :: 0 <= i < |s.ports| && i != portNum ==> n.ports[i] == s.ports[i]
  {
  }

  /** One block consumed from a running port. */
  function Consume(p: Port): Port {
    if p.inUse && p.running && p.portAddr != 0 && p.nBlock > 0
    then p.(readIndex := (p.readIndex + 1) % M64, shown := (p.readIndex + 1) % M64 % p.nBlock)
    else p
  }

  function ConsumeAll(ports: seq<Port>): (r: seq<Port>)
    ensures |r| == |ports|
    ensures forall i :: 0 <= i < |ports| ==> r[i] == Consume(ports[i])
  {
    if ports == [] then [] else [Consume(ports[0])] + ConsumeAll(ports[1..])
  }

  /** audio_mix_one_block: one tick of the shared counter, one block from every running port. */
  function Mix(s: State): State { s.(counter := (s.counter + 1) % M64, ports := ConsumeAll(s.ports)) }

  function BlockTag(s: State, portNum: U32, blockNo: U64): (Status, U64) {
    if portNum >= |s.ports| then (ParamError, 0)
    else if !s.ports[portNum].inUse then (NotOpen, 0)
    else
      var n := if s.ports[portNum].nBlock != 0 then s.ports[portNum].nBlock else 1;
      if blockNo >= n then (ParamError, 0)
      else (Ok, (s.counter + blockNo - s.ports[portNum].readIndex % n) % M64)
  }

  function Timestamp(s: State, startUs: U64, portNum: U32, tag: U64): (Status, U64) {
    if portNum >= |s.ports| then (ParamError, 0)
    else if !s.ports[portNum].inUse then (NotOpen, 0)
    else if tag > s.counter then (TagNotFound, 0)
    else (Ok, (startUs + tag * 256000000 % M64 / 48000) % M64)
  }

  predicate Shape(s: State) { |s.vm.free| == FREE_MAX && |s.ports| == PORT_MAX }

  /** cellAudioInit, on the static state of a fresh process: a cleared port table and counter. */
  function Initial(): State {
    State(Vm(false, VM_BASE, seq(FREE_MAX, _ => EMPTY)), seq(PORT_MAX, _ => Port(false, false, 0, 0, 0, 0, 0, 0, 0)), 0)
  }

  /** The static tables, updated in place under the audio mutex. */
  class Server {
    var ready: bool
    var bump: U32
    var free: array<Block>
    var ports: array<Port>
    var counter: U64

    ghost predicate Valid()
      reads this
    {
      free.Length == FREE_MAX && ports.Length == PORT_MAX
    }

    ghost function Abs(): State
      reads this, free, ports
    {
      State(Vm(ready, bump, free[..]), ports[..], counter)
    }

    constructor ()
      ensures Valid() && fresh(free) && fresh(ports) && Abs() == Initial()
    {
      ready, bump, counter := false, VM_BASE, 0;
      free := new Block[FREE_MAX](_ => EMPTY);
      ports := new Port[PORT_MAX](_ => Port(false, false, 0, 0, 0, 0, 0, 0, 0));
      new;
      assert free[..] == Initial().vm.free && ports[..] == Initial().ports;
    }

    /** The scan shared by alloc and free. */
    method FindEntry(size: U32) returns (i: int)
      requires Valid()
      ensures i == FindSize(free[..], size)
    {
      i := 0;
      while i < FREE_MAX
        invariant 0 <= i <= FREE_MAX
        invariant FindSize(free[..], size) == i + FindSize(free[i..], size)
      {
        if free[i].size == size {
          return;
        }
        assert free[i..][1..] == free[i + 1..];
        i := i + 1;
      }
    }

    method VmAlloc(request: U32, commitOk: bool) returns (addr: U32)
      requires Valid()
      modifies this`ready, this`bump, free
      ensures Valid() && (Abs().vm, addr) == Alloc(old(Abs().vm), request, commitOk)
    {
      var size := (request + 0x7F) % M32 / 128 * 128;
      if !ready {
        if !commitOk {
          return 0;
        }
        ready := true;
      }
      var i := FindEntry(size);
      if i < FREE_MAX {
        addr := free[i].addr;
        free[i] := EMPTY;
        return;
      }
      if bump + size > VM_BASE + VM_SIZE {
        return 0;
      }
      addr := bump;
      bump := bump + size;
    }

    method VmFree(addr: U32, request: U32)
      requires Valid()
      modifies free
      ensures Valid() && Abs().vm == Free(old(Abs().vm), addr, request)
    {
      if addr == 0 {
        return;
      }
      var size := (request + 0x7F) % M32 / 128 * 128;
      var i := FindEntry(0);
      if i < FREE_MAX {
        free[i] := Block(addr, size);
      }
    }

    method FindFreePort() returns (i: nat)
      requires Valid()
      ensures i == FreeSlot(ports[..])
    {
      i := 0;
      while i < PORT_MAX
        invariant 0 <= i <= PORT_MAX
        invariant FreeSlot(ports[..]) == i + FreeSlot(ports[i..])
      {
        if !ports[i].inUse {
          return;
        }
        assert ports[i..][1..] == ports[i + 1..];
        i := i + 1;
      }
    }

    method PortOpen(nChannel: U64, nBlock: U64, commitOk: bool) returns (status: Status, portNum: nat)
      requires Valid() && free as object != ports as object
      modifies this, free, ports
      ensures Valid() && free == old(free) && ports == old(ports)
      ensures (status, Abs(), portNum) == Open(old(Abs()), nChannel, nBlock, commitOk)
    {
      if !ValidChannels(nChannel) || !ValidBlocks(nBlock) {
        return ParamError, 0;
      }
      var found := FindFreePort();
      if found >= PORT_MAX {
        return PortFull, 0;
      }
      ghost var was := ports[..];
      var bytes := RingBytes(nChannel, nBlock);
      var ring := VmAlloc(bytes, commitOk);
      var index := VmAlloc(INDEX_SIZE, commitOk);
      assert ports[..] == was;
      var p := ports[found].(running := false, nChannel := nChannel, nBlock := nBlock, bufSize := bytes,
                             readIndex := 0);
      if ring == 0 || index == 0 {
        ports[found] := p.(inUse := false);
        return NoMemory, 0;
      }
      ports[found] := p.(inUse := true, portAddr := ring, readIdxAddr := index, shown := 0);
      return Ok, found;
    }

    method PortClose(portNum: U32) returns (status: Status)
      requires Valid() && free as object != ports as object
      modifies free, ports
      ensures Valid() && (status, Abs()) == Close(old(Abs()), portNum)
    {
      if portNum >= PORT_MAX || !ports[portNum].inUse {
        return NotOpen;
      }
      ghost var was := ports[..];
      VmFree(ports[portNum].portAddr, ports[portNum].bufSize);
      VmFree(ports[portNum].readIdxAddr, INDEX_SIZE);
      assert ports[..] == was;
      ports[portNum] := ports[portNum].(inUse := false, running := false, portAddr := 0, readIdxAddr := 0);
      return Ok;
    }

    method PortStart(portNum: U32) returns (status: Status)
      requires Valid()
      modifies ports
      ensures Valid() && ports[..] == SetRunning(old(Abs()), portNum, true).1.ports
              && status == SetRunning(old(Abs()), portNum, true).0
    {
      if portNum >= PORT_MAX || !ports[portNum].inUse {
        return NotOpen;
      }
      if ports[portNum].running {
        return AlreadyRunning;
      }
      ports[portNum] := ports[portNum].(running := true);
      return Ok;
    }

    method PortStop(portNum: U32) returns (status: Status)
      requires Valid()
      modifies ports
      ensures Valid() && ports[..] == SetRunning(old(Abs()), portNum, false).1.ports
              && status == SetRunning(old(Abs()), portNum, false).0
    {
      if portNum >= PORT_MAX || !ports[portNum].inUse {
        return NotOpen;
      }
      if !ports[portNum].running {
        return NotRunning;
      }
      ports[portNum] := ports[portNum].(running := false);
      return Ok;
    }

    method MixOneBlock()
      requires Valid()
      modifies this`counter, ports
      ensures Valid() && counter == Mix(old(Abs())).counter && ports[..] == Mix(old(Abs())).ports
    {
      counter := (counter + 1) % M64;
      ghost var was := ports[..];
      for p := 0 to PORT_MAX
        invariant Valid() && counter == old((counter + 1) % M64)
        invariant forall i :: 0 <= i < p ==> ports[i] == Consume(was[i])
        invariant forall i :: p <= i < PORT_MAX ==> ports[i] == was[i]
      {
        var port := ports[p];
        if port.inUse && port.running && port.portAddr != 0 && port.nBlock > 0 {
          var next := (port.readIndex + 1) % M64;
          ports[p] := port.(readIndex := next, shown := next % port.nBlock);
        }
      }
      assert ports[..] == ConsumeAll(was);
    }

    method GetPortBlockTag(portNum: U32, blockNo: U64) returns (status: Status, tag: U64)
      requires Valid()
      ensures (status, tag) == BlockTag(Abs(), portNum, blockNo)
    {
      if portNum >= PORT_MAX {
        return ParamError, 0;
      }
      if !ports[portNum].inUse {
        return NotOpen, 0;
      }
      var n: U64 := if ports[portNum].nBlock != 0 then ports[portNum].nBlock else 1;
      if blockNo >= n {
        return ParamError, 0;
      }
      return Ok, (counter + blockNo - ports[portNum].readIndex % n) % M64;
    }
  }
}
