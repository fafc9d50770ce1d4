/** The memory that every scheme must look like from outside. */
module Ram {
  import opened Bytes

  datatype Op = READ | WRITE

  datatype Request = Request(op: Op, addr: nat, data: seq<byte>)

  type Memory = map<nat, seq<byte>>

  /** Addresses never written hold zeros. */
  function Load(mem: Memory, addr: nat, blockSize: nat): seq<byte>
  {
    if addr in mem then mem[addr] else Zeros(blockSize)
  }

  function Store(mem: Memory, r: Request): Memory
  {
    if r.op == WRITE then mem[r.addr := r.data] else mem
  }

  function Answer(mem: Memory, r: Request, blockSize: nat): seq<byte>
  {
    if r.op == WRITE then r.data else Load(mem, r.addr, blockSize)
  }

  /** The memory after a run of requests. */
  function After(mem: Memory, requests: seq<Request>): Memory
  {
    if requests == [] then mem else Store(After(mem, requests[..|requests| - 1]), requests[|requests| - 1])
  }

  /** The answers of a plain memory to a run of requests. */
  function Answers(mem: Memory, requests: seq<Request>, blockSize: nat): (answers: seq<seq<byte>>)
    ensures |answers| == |requests|
  {
    if requests == [] then [] else
      var before := requests[..|requests| - 1];
      Answers(mem, before, blockSize) + [Answer(After(mem, before), requests[|requests| - 1], blockSize)]
  }

  /** The data of the last write to an address in a run, or what was there before the run. */
  function LastWritten(mem: Memory, requests: seq<Request>, addr: nat, blockSize: nat): seq<byte>
  {
    if requests == [] then Load(mem, addr, blockSize)
    else
      var last := requests[|requests| - 1];
      if last.op == WRITE && last.addr == addr then last.data
      else LastWritten(mem, requests[..|requests| - 1], addr, blockSize)
  }

  lemma {:induction false} LoadIsLastWritten(mem: Memory, requests: seq<Request>, addr: nat, blockSize: nat)
    ensures Load(After(mem, requests), addr, blockSize) == LastWritten(mem, requests, addr, blockSize)
  {
    if requests != [] {
      LoadIsLastWritten(mem, requests[..|requests| - 1], addr, blockSize);
    }
  }

  /** Every read in a run answers with the last data written before it. */
  lemma {:induction false} ReadsSeeLastWrite(mem: Memory, requests: seq<Request>, i: nat, blockSize: nat)
    requires i < |requests| && requests[i].op == READ
    ensures Answers(mem, requests, blockSize)[i] == LastWritten(mem, requests[..i], requests[i].addr, blockSize)
  {
    var before := requests[..|requests| - 1];
    if i == |requests| - 1 {
      LoadIsLastWritten(mem, before, requests[i].addr, blockSize);
    } else {
      ReadsSeeLastWrite(mem, before, i, blockSize);
      assert before[..i] == requests[..i];
    }
  }
}
