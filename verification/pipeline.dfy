/**
 * Pipe wiring and the worker lifecycle (src/transfer.py: `TransferPipe`,
 * `PipeManager`, `Endpoint`, `TransferWorker`, `TransferManager`).
 *
 * A pipe is modelled by the closed state of its two ends; the bytes that travel
 * through it are supplied by the operating system, modelled as a function
 * parameter of the read operations.
 */
module Pipeline {
  import opened Wrappers
  import opened Defaults
  import opened Accounting

  datatype Mode = Read | Write

  type Bytes = seq<bv8>

  /** The Python exceptions the modelled operations can raise. */
  datatype Error = AttributeError | ValueError | AssertionError | IndexError | TypeError | NameError | OverflowError

  /** How a read reaches the operating system: at most `n` bytes, or everything up to end-of-data. */
  datatype Request = UpTo(n: nat) | ToEnd

  /** The range of a C `long` on an LP64 platform, into which the file's `read` converts its size. */
  const LongMin: int := -0x8000_0000_0000_0000
  const LongMax: int := 0x7fff_ffff_ffff_ffff

  /**
   * The request `TransferPipe.read(bufsize)` makes: a falsy size (`None`, 0,
   * the empty string) reads to the end, and so does a negative one; a positive
   * size bounds the read. A truthy size is passed on to the file's `read`, which
   * rejects a string with TypeError and an integer outside the C `long` range
   * with OverflowError.
   */
  function RequestFor(bufsize: Value): (q: Result<Request, Error>)
    ensures q.Failure? <==> (bufsize.StrVal? && bufsize.s != "")
                            || (bufsize.IntVal? && bufsize.i != 0 && !(LongMin <= bufsize.i <= LongMax))
    ensures q.Failure? ==> q.error == (if bufsize.StrVal? then TypeError else OverflowError)
    ensures q.Success? ==> (q.value.UpTo? <==> bufsize.IntVal? && bufsize.i > 0)
    ensures q.Success? && q.value.UpTo? ==> q.value.n == bufsize.i <= LongMax
  {
    match bufsize
    case IntVal(i) =>
      if i == 0 then Success(ToEnd)
      else if i < LongMin || LongMax < i then Failure(OverflowError)
      else Success(if i > 0 then UpTo(i) else ToEnd)
    case NoneVal => Success(ToEnd)
    case StrVal(s) => if s == "" then Success(ToEnd) else Failure(TypeError)
  }

  /** Whether end `md` of pipe `p` is closed. */
  predicate EndClosed(p: TransferPipe, md: Mode)
    reads p
  {
    if md == Read then p.readClosed else p.writeClosed
  }

  class TransferPipe {
    const manager: PipeManager
    var readClosed: bool
    var writeClosed: bool

    constructor (manager: PipeManager)
      ensures this.manager == manager && !readClosed && !writeClosed
    {
      this.manager := manager;
      readClosed := false;
      writeClosed := false;
    }

    /** Closes the write end; a second call is a no-op and the read end never changes. */
    method CloseWrite()
      modifies this
      ensures writeClosed && readClosed == old(readClosed)
      ensures old(writeClosed) ==> unchanged(this)
    {
      if !writeClosed {
        writeClosed := true;
      }
    }

    /** Closes the read end; a second call is a no-op and the write end never changes. */
    method CloseRead()
      modifies this
      ensures readClosed && writeClosed == old(writeClosed)
      ensures old(readClosed) ==> unchanged(this)
    {
      if !readClosed {
        readClosed := true;
      }
    }

    /** `close(name)`: delegates to the manager that created the pipe. */
    method Close(name: string)
      requires manager.Valid() && this in manager.Repr
      modifies manager.Repr
      ensures forall p: TransferPipe, md: Mode | p in manager.Repr ::
                EndClosed(p, md) == (old(EndClosed(p, md)) || manager.ForeignTo(p, md, name))
    {
      manager.Close(name);
    }

    /** `write(data)`: writing to a closed end raises. */
    method Write(data: Bytes) returns (r: Outcome<Error>)
      ensures r.Fail? <==> writeClosed
      ensures r.Fail? ==> r.error == ValueError
    {
      if writeClosed {
        r := Fail(ValueError);
      } else {
        r := Pass;
      }
    }

    /**
     * `read(bufsize)`: `os` gives the bytes the operating system returns for a
     * request. The Python 2 file `read` checks for a closed file first
     * (ValueError), then rejects a size it cannot convert (TypeError or
     * OverflowError).
     */
    method Read(bufsize: Value, os: Request -> Bytes) returns (r: Result<Bytes, Error>)
      ensures readClosed ==> r == Failure(ValueError)
      ensures !readClosed && RequestFor(bufsize).Failure? ==> r == Failure(RequestFor(bufsize).error)
      ensures !readClosed && RequestFor(bufsize).Success? ==> r == Success(os(RequestFor(bufsize).value))
    {
      var q := RequestFor(bufsize);
      if readClosed {
        r := Failure(ValueError);
      } else if q.Failure? {
        r := Failure(q.error);
      } else {
        r := Success(os(q.value));
      }
    }
  }

  /** The registry after `_add_pipe` stored `pipe` as `mode` of worker `name`. */
  function Register(reg: map<string, map<Mode, TransferPipe>>, name: string, mode: Mode, pipe: TransferPipe)
    : map<string, map<Mode, TransferPipe>>
  {
    var ends: map<Mode, TransferPipe> := if name in reg then reg[name] else map[];
    reg[name := ends[mode := pipe]]
  }

  /** Registering adds exactly one end: the worker's other end and every other worker are kept. */
  lemma RegisterLookup(reg: map<string, map<Mode, TransferPipe>>, name: string, mode: Mode, pipe: TransferPipe)
    ensures var r := Register(reg, name, mode, pipe);
            && r.Keys == reg.Keys + {name}
            && mode in r[name] && r[name][mode] == pipe
            && (forall md :: md != mode ==> (md in r[name] <==> name in reg && md in reg[name]))
            && (forall md :: md != mode && md in r[name] ==> r[name][md] == reg[name][md])
            && (forall n :: n in reg && n != name ==> r[n] == reg[n])
  {
  }

  /** The assertion of `_add_pipe`: a worker holds at most one end per mode. */
  predicate CanAdd(reg: map<string, map<Mode, TransferPipe>>, name: string, mode: Mode)
  {
    name !in reg || mode !in reg[name]
  }

  /** One order of the dictionary's keys after `name` was looked up and inserted if absent. */
  function AddName(names: seq<string>, reg: map<string, map<Mode, TransferPipe>>, name: string): seq<string>
  {
    if name in reg then names else names + [name]
  }

  /** Worker `n` holds `p` as its `md` end in the registry. */
  predicate Holds(reg: map<string, map<Mode, TransferPipe>>, n: string, p: TransferPipe, md: Mode)
  {
    n in reg && md in reg[n] && reg[n][md] == p
  }

  /** No worker holds `p` as its `md` end. */
  predicate Unregistered(reg: map<string, map<Mode, TransferPipe>>, p: TransferPipe, md: Mode)
  {
    forall n :: n in reg ==> !Holds(reg, n, p, md)
  }

  /**
   * The registry is consistent: `names` lists its keys once each, and no pipe
   * end is held by two workers.
   */
  ghost predicate RegistryOk(pipes: map<string, map<Mode, TransferPipe>>, names: seq<string>)
  {
    && (forall i, j :: 0 <= i < j < |names| ==> names[i] != names[j])
    && (forall n :: n in pipes <==> n in names)
    && (forall n1, n2, md ::
          (n1 in pipes && n2 in pipes && md in pipes[n1] && md in pipes[n2] && pipes[n1][md] == pipes[n2][md]) ==> n1 == n2)
  }

  /** Registering an unregistered end for a worker that lacks that mode keeps the registry consistent. */
  lemma RegisterKeepsRegistryOk(pipes: map<string, map<Mode, TransferPipe>>, names: seq<string>,
                                name: string, mode: Mode, pipe: TransferPipe)
    requires RegistryOk(pipes, names)
    requires CanAdd(pipes, name, mode) && Unregistered(pipes, pipe, mode)
    ensures RegistryOk(Register(pipes, name, mode, pipe), AddName(names, pipes, name))
  {
    var pipes' := Register(pipes, name, mode, pipe);
    RegisterLookup(pipes, name, mode, pipe);
    forall n1, n2, md | n1 in pipes' && n2 in pipes' && md in pipes'[n1] && md in pipes'[n2]
                        && pipes'[n1][md] == pipes'[n2][md]
      ensures n1 == n2
    {
      if md != mode || (n1 != name && n2 != name) {
        assert pipes'[n1][md] == pipes[n1][md] && pipes'[n2][md] == pipes[n2][md];
      }
    }
  }

  /** The keyword parameters of `endpoint_bind(self, read=None, write=None)`. */
  const BindParameters: set<string> := {"read", "write"}

  /** The keyword `_add_pipe` passes for an end: the mode string itself. */
  function ModeKeyword(md: Mode): (k: string)
    ensures k in BindParameters
  {
    if md == Read then "read" else "write"
  }

  /**
   * `endpoint_bind(**kw)` as the code is written: a keyword it does not accept
   * raises TypeError at the call; otherwise its body tests `pipe_read`, a name
   * bound nowhere in its scope, and raises NameError. No call binds anything.
   */
  function EndpointBindAsWritten(keywords: set<string>): (r: Outcome<Error>)
    ensures r.Fail?
    ensures r.error == TypeError <==> !(keywords <= BindParameters)
    ensures r.error == NameError <==> keywords <= BindParameters
  {
    if !(keywords <= BindParameters) then Fail(TypeError) else Fail(NameError)
  }

  /**
   * As written, `connect` raises TypeError at its first statement after the
   * pipe is created (`pipe_read` is not a parameter), and `_add_pipe` would
   * raise NameError for either mode: no pipe is ever registered or bound.
   */
  lemma ConnectAsWrittenRaises(md: Mode)
    ensures EndpointBindAsWritten({"pipe_read"}) == Fail(TypeError)
    ensures EndpointBindAsWritten({ModeKeyword(md)}) == Fail(NameError)
  {
  }

  /** A worker's entry holds at least one end. */
  predicate HoldsAny(ends: map<Mode, TransferPipe>)
  {
    Read in ends || Write in ends
  }

  /**
   * `close(name)` as the code is written: for each worker other than `name`,
   * in the order `names` gives (one possible order of a Python 2 dictionary;
   * the outcome does not depend on it), it calls `close_read` or `close_write` on that
   * worker's dictionary of ends, which has neither method, so the first such
   * worker that holds an end raises AttributeError.
   */
  function CloseAsWritten(pipes: map<string, map<Mode, TransferPipe>>, names: seq<string>, name: string)
    : (r: Outcome<Error>)
    requires forall j :: 0 <= j < |names| ==> names[j] in pipes
    ensures r.Fail? <==> exists j :: 0 <= j < |names| && names[j] != name && HoldsAny(pipes[names[j]])
    ensures r.Fail? ==> r.error == AttributeError
  {
    if names == [] then Pass
    else if names[0] != name && HoldsAny(pipes[names[0]]) then Fail(AttributeError)
    else
      var r := CloseAsWritten(pipes, names[1..], name);
      assert forall j :: 1 <= j < |names| ==> names[j] == names[1..][j - 1];
      r
  }

  class PipeManager {
    /** `self.pipes`: worker name, then mode, to pipe. */
    var pipes: map<string, map<Mode, TransferPipe>>
    /** The keys of `pipes`, in one order `close` may visit them; no outcome depends on that order. */
    var names: seq<string>
    var pipeCount: nat
    /** The pipes `pipeCount` counts, in creation order. */
    ghost var Pipes: seq<TransferPipe>
    ghost var Repr: set<TransferPipe>

    ghost predicate Valid()
      reads this
    {
      && RegistryOk(pipes, names)
      && (forall n :: n in pipes ==> pipes[n].Values <= Repr)
      && (forall p :: p in Repr ==> p.manager == this)
      && pipeCount == |Pipes|
      && (forall i :: 0 <= i < |Pipes| ==> Pipes[i] in Repr)
    }

    /** End `md` of `p` is registered to a worker other than `name`. */
    ghost predicate ForeignTo(p: TransferPipe, md: Mode, name: string)
      reads this
    {
      exists n :: n != name && Holds(pipes, n, p, md)
    }

    /** End `md` of `p` is held by one of the first `k` registered workers other than `name`. */
    ghost predicate ClosedBy(p: TransferPipe, md: Mode, name: string, k: nat)
      reads this
      requires k <= |names|
    {
      exists j :: 0 <= j < k && names[j] != name && Holds(pipes, names[j], p, md)
    }

    constructor ()
      ensures Valid() && fresh(this)
      ensures pipes == map[] && names == [] && pipeCount == 0
      ensures Pipes == [] && Repr == {}
    {
      pipes := map[];
      names := [];
      pipeCount := 0;
      Pipes := [];
      Repr := {};
    }

    /** One step of `close`: closes both registered ends of worker `nm`. */
    method CloseEndsOf(nm: string)
      requires Valid() && nm in pipes
      modifies Repr
      ensures forall p: TransferPipe, md: Mode | p in Repr ::
                EndClosed(p, md) == (old(EndClosed(p, md)) || Holds(pipes, nm, p, md))
    {
      var pp := pipes[nm];
      if Read in pp {
        pp[Read].CloseRead();
      }
      if Write in pp {
        pp[Write].CloseWrite();
      }
    }

    /**
     * `close(name)`: closes every registered end that belongs to a worker other
     * than `name`; the ends of `name` itself and unregistered ends are untouched.
     */
    method Close(name: string)
      requires Valid()
      modifies Repr
      ensures forall p: TransferPipe, md: Mode | p in Repr ::
                EndClosed(p, md) == (old(EndClosed(p, md)) || ForeignTo(p, md, name))
    {
      var i := 0;
      while i < |names|
        invariant 0 <= i <= |names|
        invariant forall p: TransferPipe, md: Mode | p in Repr ::
                    EndClosed(p, md) == (old(EndClosed(p, md)) || ClosedBy(p, md, name, i))
      {
        var nm := names[i];
        assert names[..i + 1] == names[..i] + [nm];
        if nm != name {
          CloseEndsOf(nm);
        }
        i := i + 1;
      }
      assert names[..i] == names;
    }
  
    /**
     * `_add_pipe(worker, mode, pipe)`: register `pipe` as the `mode` end of the
     * worker and bind it; a second end of the same mode fails the assertion.
     * The pipe end must not be registered yet (`connect` passes a new pipe).
     */
    method AddPipe(worker: TransferWorker, mode: Mode, pipe: TransferPipe) returns (r: Outcome<Error>)
      requires Valid() && pipe.manager == this && Unregistered(pipes, pipe, mode)
      modifies this, worker`pipeRead, worker`pipeWrite
      ensures Valid()
      ensures r.Pass? <==> CanAdd(old(pipes), worker.name, mode)
      ensures r.Fail? ==> r.error == AssertionError
      ensures r.Fail? ==> unchanged(this) && unchanged(worker)
      ensures r.Pass? ==> pipes == Register(old(pipes), worker.name, mode, pipe)
                          && names == AddName(old(names), old(pipes), worker.name)
                          && Repr == old(Repr) + {pipe}
      ensures r.Pass? ==> worker.pipeRead == (if mode == Read then pipe else old(worker.pipeRead))
                          && worker.pipeWrite == (if mode == Write then pipe else old(worker.pipeWrite))
      ensures pipeCount == old(pipeCount) && Pipes == old(Pipes)
    {
      if !CanAdd(pipes, worker.name, mode) {
        r := Fail(AssertionError);
        return;
      }
      RegisterKeepsRegistryOk(pipes, names, worker.name, mode, pipe);
      RegisterLookup(pipes, worker.name, mode, pipe);
      pipes, names := Register(pipes, worker.name, mode, pipe), AddName(names, pipes, worker.name);
      Repr := Repr + {pipe};
      if mode == Read {
        worker.EndpointBind(pipe, null);
      } else {
        worker.EndpointBind(null, pipe);
      }
      r := Pass;
    }

    /**
     * `connect(source, target)`: a new pipe whose write end belongs to `source`
     * and whose read end belongs to `target`; `pipe_count` grows only when both
     * registrations succeed.
     */
    method Connect(source: TransferWorker, target: TransferWorker) returns (r: Outcome<Error>)
      requires Valid()
      modifies this, source`pipeRead, source`pipeWrite, target`pipeRead, target`pipeWrite
      ensures Valid()
      ensures r.Pass? <==> CanAdd(old(pipes), source.name, Write) && CanAdd(old(pipes), target.name, Read)
      ensures r.Fail? ==> r.error == AssertionError && pipeCount == old(pipeCount) && Pipes == old(Pipes)
      ensures r.Pass? ==> |Pipes| == |old(Pipes)| + 1 && Pipes == old(Pipes) + [Pipes[|Pipes| - 1]]
      ensures r.Pass? ==> fresh(Pipes[|Pipes| - 1]) && !Pipes[|Pipes| - 1].readClosed && !Pipes[|Pipes| - 1].writeClosed
      ensures r.Pass? ==> pipes == Register(Register(old(pipes), source.name, Write, Pipes[|Pipes| - 1]),
                                            target.name, Read, Pipes[|Pipes| - 1])
      ensures r.Pass? ==> Repr == old(Repr) + {Pipes[|Pipes| - 1]}
      ensures old(AllOpen(Repr)) ==> AllOpen(Repr)
      ensures old(Distinct(Pipes)) ==> Distinct(Pipes)
      ensures r.Pass? ==> source.pipeWrite == Pipes[|Pipes| - 1] && target.pipeRead == Pipes[|Pipes| - 1]
      ensures r.Pass? && source != target ==> source.pipeRead == old(source.pipeRead)
                                              && target.pipeWrite == old(target.pipeWrite)
      ensures r.Fail? && !CanAdd(old(pipes), source.name, Write) ==>
                pipes == old(pipes) && names == old(names) && Repr == old(Repr)
                && source.pipeRead == old(source.pipeRead) && source.pipeWrite == old(source.pipeWrite)
      ensures r.Fail? && CanAdd(old(pipes), source.name, Write) ==>
                source.pipeWrite != null && fresh(source.pipeWrite)
                && !source.pipeWrite.readClosed && !source.pipeWrite.writeClosed
                && pipes == Register(old(pipes), source.name, Write, source.pipeWrite)
                && names == AddName(old(names), old(pipes), source.name)
                && Repr == old(Repr) + {source.pipeWrite}
                && source.pipeRead == old(source.pipeRead)
      ensures r.Fail? && source != target ==> target.pipeRead == old(target.pipeRead)
                                              && target.pipeWrite == old(target.pipeWrite)
    {
      var pipe := new TransferPipe(this);
      assert pipe !in Repr;
      r := AddPipe(source, Write, pipe);
      if r.Pass? {
        RegisterLookup(old(pipes), source.name, Write, pipe);
        r := AddReader(target, pipe);
      }
    }

    /** The second half of `connect`: register the read end, then count the pipe. */
    method AddReader(target: TransferWorker, pipe: TransferPipe) returns (r: Outcome<Error>)
      requires Valid() && pipe.manager == this && Unregistered(pipes, pipe, Read) && pipe in Repr
      modifies this, target`pipeRead, target`pipeWrite
      ensures Valid()
      ensures r.Pass? <==> CanAdd(old(pipes), target.name, Read)
      ensures r.Fail? ==> r.error == AssertionError && pipeCount == old(pipeCount) && Pipes == old(Pipes)
      ensures r.Fail? ==> pipes == old(pipes) && names == old(names)
                          && target.pipeRead == old(target.pipeRead) && target.pipeWrite == old(target.pipeWrite)
      ensures r.Pass? ==> Pipes == old(Pipes) + [pipe]
      ensures r.Pass? ==> pipes == Register(old(pipes), target.name, Read, pipe)
      ensures Repr == old(Repr)
      ensures r.Pass? ==> target.pipeRead == pipe && target.pipeWrite == old(target.pipeWrite)
    {
      r := AddPipe(target, Read, pipe);
      if r.Pass? {
        pipeCount := pipeCount + 1;
        Pipes := Pipes + [pipe];
      }
    }
  }

  /**
   * `close(name)` leaves the ends `name` holds untouched: since no end is
   * registered twice, an end of `name` belongs to no other worker.
   */
  lemma OwnEndsNotForeign(m: PipeManager, name: string, p: TransferPipe, md: Mode)
    requires m.Valid() && Holds(m.pipes, name, p, md)
    ensures !m.ForeignTo(p, md, name)
  {
  }

  /** The phases of `TransferWorker.run`. */
  datatype Phase = Initialised | Transferred(outcome: Outcome<Error>) | Finalised

  /**
   * The size `Endpoint.read` passes on: the argument when given, else the
   * worker's `bufsize` attribute, whatever its value; only a missing attribute
   * raises (AttributeError). What the value means is decided by the pipe read.
   */
  function ReadSize(size: Option<int>, attrs: Dict): (r: Result<Value, Error>)
    ensures size.Some? ==> r == Success(IntVal(size.value))
    ensures r.Failure? <==> size.None? && "bufsize" !in attrs
    ensures r.Failure? ==> r.error == AttributeError
    ensures size.None? && "bufsize" in attrs ==> r == Success(attrs["bufsize"])
  {
    if size.Some? then Success(IntVal(size.value))
    else if "bufsize" !in attrs then Failure(AttributeError)
    else Success(attrs["bufsize"])
  }

  /** A worker's endpoint state: its bound pipe ends and one throughput counter per direction. */
  class TransferWorker {
    const name: string
    var pipeRead: TransferPipe?
    var pipeWrite: TransferPipe?
    const readThroughput: Throughput
    const writeThroughput: Throughput
    /** The attributes `__init__` sets from the defaults and the keyword arguments. */
    var attrs: Dict
    var daemon: bool
    /** `transfer_count`: absent until `start` sets it. */
    var transferCount: Option<int>
    /** Byte counts reported to `transfer_callback` since `start`; a count may be negative. */
    ghost var Callbacks: seq<int>
    /** The lifecycle phases `run` has gone through. */
    ghost var Trace: seq<Phase>

    ghost predicate Valid()
      reads readThroughput, writeThroughput
    {
      readThroughput != writeThroughput && readThroughput.Valid() && writeThroughput.Valid()
    }

    /**
     * `__init__(**kw)` for a worker whose class has the given MRO (most-derived
     * first); the generated name is a parameter.
     */
    constructor (name: string, mro: seq<Dict>, kw: Dict)
      ensures Valid() && fresh(readThroughput) && fresh(writeThroughput)
      ensures this.name == name && pipeRead == null && pipeWrite == null
      ensures readThroughput.counter == 0 && writeThroughput.counter == 0
      ensures readThroughput.startTime == None && writeThroughput.startTime == None
      ensures readThroughput.Sizes == [] && readThroughput.Times == []
      ensures writeThroughput.Sizes == [] && writeThroughput.Times == []
      ensures attrs == Configure(MergeDefaults(mro), kw)
      ensures !daemon && transferCount == None && Callbacks == [] && Trace == []
    {
      this.name := name;
      pipeRead := null;
      pipeWrite := null;
      readThroughput := new Throughput();
      writeThroughput := new Throughput();
      var defaults := GetDefaults(mro);
      attrs := Configure(defaults, kw);
      daemon := false;
      transferCount := None;
      Callbacks := [];
      Trace := [];
    }

    /** `endpoint_bind(read, write)`: binds each end that is given, keeps the other. */
    method EndpointBind(read: TransferPipe?, write: TransferPipe?)
      modifies this`pipeRead, this`pipeWrite
      ensures pipeRead == (if read != null then read else old(pipeRead))
      ensures pipeWrite == (if write != null then write else old(pipeWrite))
    {
      if read != null {
        pipeRead := read;
      }
      if write != null {
        pipeWrite := write;
      }
    }

    /** Both bound ends, if any, were created by manager `m`. */
    ghost predicate BoundTo(m: PipeManager)
      reads this, m
    {
      && (pipeRead != null ==> pipeRead.manager == m && pipeRead in m.Repr)
      && (pipeWrite != null ==> pipeWrite.manager == m && pipeWrite in m.Repr)
    }

    predicate HasPipe()
      reads this
    {
      pipeRead != null || pipeWrite != null
    }

    /** `Endpoint.write(data)`: write to the bound output pipe, then count the bytes. */
    method Write(data: Bytes, now: Timestamp) returns (r: Outcome<Error>)
      requires Valid()
      modifies writeThroughput
      ensures Valid()
      ensures r.Fail? <==> pipeWrite == null || pipeWrite.writeClosed
      ensures r.Fail? ==> r.error == (if pipeWrite == null then AttributeError else ValueError)
      ensures r.Pass? ==> writeThroughput.counter == old(writeThroughput.counter) + |data|
                          && writeThroughput.Sizes == old(writeThroughput.Sizes) + [|data|]
                          && writeThroughput.Times == old(writeThroughput.Times) + [now]
      ensures r.Fail? ==> unchanged(writeThroughput)
    {
      if pipeWrite == null {
        r := Fail(AttributeError);
        return;
      }
      r := pipeWrite.Write(data);
      if r.Pass? {
        writeThroughput.Update(|data|, now);
      }
    }

    /**
     * `Endpoint.read(bufsize)`: read from the bound input pipe with the given
     * size or the worker's `bufsize`, then count the bytes actually returned.
     * `os` gives the bytes the operating system returns for a request.
     */
    method Read(size: Option<int>, os: Request -> Bytes, now: Timestamp) returns (r: Result<Bytes, Error>)
      requires Valid()
      modifies readThroughput
      ensures Valid()
      ensures ReadSize(size, attrs).Failure? ==> r == Failure(AttributeError)
      ensures ReadSize(size, attrs).Success? && pipeRead == null ==> r == Failure(AttributeError)
      ensures ReadSize(size, attrs).Success? && pipeRead != null ==>
                var q := RequestFor(ReadSize(size, attrs).value);
                r == (if pipeRead.readClosed then Failure(ValueError)
                      else if q.Failure? then Failure(q.error)
                      else Success(os(q.value)))
      ensures r.Success? ==> readThroughput.counter == old(readThroughput.counter) + |r.value|
                             && readThroughput.Sizes == old(readThroughput.Sizes) + [|r.value|]
                             && readThroughput.Times == old(readThroughput.Times) + [now]
      ensures r.Failure? ==> unchanged(readThroughput)
    {
      var bufsize := ReadSize(size, attrs);
      if bufsize.Failure? {
        r := Failure(bufsize.error);
        return;
      }
      if pipeRead == null {
        r := Failure(AttributeError);
        return;
      }
      r := pipeRead.Read(bufsize.value, os);
      if r.Success? {
        readThroughput.Update(|r.value|, now);
      }
    }

    /** `endpoint_init`: close, through the manager, every end that belongs to another worker. */
    method EndpointInit(m: PipeManager)
      requires m.Valid() && BoundTo(m)
      modifies m.Repr
      ensures forall p: TransferPipe, md: Mode | p in m.Repr ::
                EndClosed(p, md) == (old(EndClosed(p, md)) || (HasPipe() && m.ForeignTo(p, md, name)))
    {
      if pipeWrite != null {
        pipeWrite.Close(name);
      }
      if pipeRead != null {
        pipeRead.Close(name);
      }
    }

    /** `endpoint_finalize`: close every end not registered to a worker named "final". */
    method EndpointFinalize(m: PipeManager)
      requires m.Valid() && BoundTo(m)
      modifies m.Repr
      ensures forall p: TransferPipe, md: Mode | p in m.Repr ::
                EndClosed(p, md) == (old(EndClosed(p, md)) || (HasPipe() && m.ForeignTo(p, md, "final")))
    {
      if pipeWrite != null {
        pipeWrite.Close("final");
      }
      if pipeRead != null {
        pipeRead.Close("final");
      }
    }

    /**
     * `run`: close foreign ends, run the transfer (an abstract step whose
     * outcome is given), and finalize whether or not the transfer raised; the
     * transfer's exception, if any, propagates.
     */
    method Run(m: PipeManager, transfer: Outcome<Error>) returns (r: Outcome<Error>)
      requires m.Valid() && BoundTo(m)
      modifies m.Repr, this`Trace
      ensures r == transfer
      ensures Trace == old(Trace) + [Initialised, Transferred(transfer), Finalised]
      ensures forall p: TransferPipe, md: Mode | p in m.Repr ::
                EndClosed(p, md) == (old(EndClosed(p, md))
                                     || (HasPipe() && (m.ForeignTo(p, md, name) || m.ForeignTo(p, md, "final"))))
    {
      EndpointInit(m);
      Trace := Trace + [Initialised];
      r := transfer;
      Trace := Trace + [Transferred(transfer)];
      EndpointFinalize(m);
      Trace := Trace + [Finalised];
    }

    /** The part of `start` that is not process creation: daemonize and reset the transfer count. */
    method Start()
      modifies this`daemon, this`transferCount, this`Callbacks
      ensures daemon && transferCount == Some(0) && Callbacks == []
    {
      daemon := true;
      transferCount := Some(0);
      Callbacks := [];
    }

    /** `transfer_count` is the sum of the counts reported since `start`. */
    ghost predicate CountValid()
      reads this
    {
      transferCount.Some? ==> transferCount.value == Total(Callbacks)
    }

    /**
     * `transfer_callback(bytecount)`: before `start` the attribute does not
     * exist. The count is added without a check, so a negative one lowers it.
     */
    method TransferCallback(bytecount: int) returns (r: Outcome<Error>)
      requires CountValid()
      modifies this`transferCount, this`Callbacks
      ensures CountValid()
      ensures r.Fail? <==> old(transferCount).None?
      ensures r.Fail? ==> r.error == AttributeError && unchanged(this)
      ensures r.Pass? ==> transferCount == Some(old(transferCount).value + bytecount)
                          && Callbacks == old(Callbacks) + [bytecount]
    {
      if transferCount.None? {
        r := Fail(AttributeError);
        return;
      }
      TotalAppend(Callbacks, bytecount);
      transferCount := Some(transferCount.value + bytecount);
      Callbacks := Callbacks + [bytecount];
      r := Pass;
    }
  }

  /** Total of the counts reported to a worker, oldest first. */
  function Total(counts: seq<int>): int
  {
    if counts == [] then 0 else Total(counts[..|counts| - 1]) + counts[|counts| - 1]
  }

  /** One more report adds exactly its count, whatever its sign, to the total. */
  lemma TotalAppend(counts: seq<int>, count: int)
    ensures Total(counts + [count]) == Total(counts) + count
  {
    assert (counts + [count])[..|counts|] == counts;
  }

  /** The pipe indices a worker of a linear chain holds: pipe `k` joins worker `k` to worker `k + 1`. */
  datatype Ends = Ends(read: Option<nat>, write: Option<nat>)

  /** Worker `i` of a chain of `n` reads pipe `i - 1` unless it is first and writes pipe `i` unless it is last. */
  function ChainEnds(n: nat, i: nat): (e: Ends)
    requires i < n
    ensures e.read.Some? ==> e.read.value < n - 1
    ensures e.write.Some? ==> e.write.value < n - 1
  {
    Ends(if i > 0 then Some(i - 1) else None, if i + 1 < n then Some(i) else None)
  }

  /** The first worker has no read end and the last has no write end; every other end is present. */
  lemma ChainEndsBoundary(n: nat, i: nat)
    requires i < n
    ensures ChainEnds(n, i).read.None? <==> i == 0
    ensures ChainEnds(n, i).write.None? <==> i == n - 1
  {
  }

  /** Each of the `n - 1` pipes has exactly one writer, the worker before it, and one reader, the worker after it. */
  lemma ChainPipeOwners(n: nat, k: nat, i: nat)
    requires k < n - 1 && i < n
    ensures ChainEnds(n, i).write == Some(k) <==> i == k
    ensures ChainEnds(n, i).read == Some(k) <==> i == k + 1
  {
  }

  /** The registry entry of worker `i` of a chain of `n` over the pipes `ps`. */
  function EndsOf(n: nat, i: nat, ps: seq<TransferPipe>): (ends: map<Mode, TransferPipe>)
    requires i < n && |ps| + 1 == n
    ensures Read in ends <==> ChainEnds(n, i).read.Some?
    ensures Write in ends <==> ChainEnds(n, i).write.Some?
  {
    var e := ChainEnds(n, i);
    var rd: map<Mode, TransferPipe> := if e.read.Some? then map[Read := ps[e.read.value]] else map[];
    var wr: map<Mode, TransferPipe> := if e.write.Some? then map[Write := ps[e.write.value]] else map[];
    rd + wr
  }

  /** Growing the chain by one pipe leaves the entries of all but the last worker unchanged. */
  lemma EndsOfGrow(n: nat, ps: seq<TransferPipe>, p: TransferPipe, j: nat)
    requires |ps| + 1 == n && j + 1 < n
    ensures EndsOf(n + 1, j, ps + [p]) == EndsOf(n, j, ps)
  {
    assert (ps + [p])[..|ps|] == ps;
  }

  /** Growing the chain gives the old last worker a write end and the new worker a read end. */
  lemma EndsOfLast(n: nat, ps: seq<TransferPipe>, p: TransferPipe)
    requires |ps| + 1 == n && n >= 1
    ensures EndsOf(n + 1, n - 1, ps + [p]) == (if n == 1 then map[] else EndsOf(n, n - 1, ps))[Write := p]
    ensures EndsOf(n + 1, n, ps + [p]) == map[Read := p]
  {
  }

  /** The first `i` names, as a set. */
  function KeysOf(names: seq<string>, i: nat): set<string>
    requires i <= |names|
  {
    if i == 0 then {} else KeysOf(names, i - 1) + {names[i - 1]}
  }

  /** A name among the first `i` is one of them. */
  lemma {:induction false} KeysOfMember(names: seq<string>, i: nat, n: string)
    requires i <= |names|
    ensures n in KeysOf(names, i) <==> exists j :: 0 <= j < i && names[j] == n
  {
    if i > 0 {
      KeysOfMember(names, i - 1, n);
    }
  }

  /**
   * The registry `reg` wires the first `i` of the named workers as a chain over
   * `ps`: with at least two workers each is registered with exactly the ends
   * `ChainEnds` gives it, and no other worker is registered.
   */
  ghost predicate Wired(names: seq<string>, reg: map<string, map<Mode, TransferPipe>>, i: nat, ps: seq<TransferPipe>)
    requires 1 <= i <= |names| && |ps| + 1 == i
  {
    && (i == 1 ==> reg == map[])
    && (i > 1 ==> reg.Keys == KeysOf(names, i))
    && (i > 1 ==> EntriesUpTo(names, reg, i, ps, i))
  }

  /** Each of the first `k` workers of a chain of `n` is registered with the ends `ChainEnds` gives it. */
  ghost predicate EntriesUpTo(names: seq<string>, reg: map<string, map<Mode, TransferPipe>>, n: nat,
                              ps: seq<TransferPipe>, k: nat)
    requires k <= n <= |names| && |ps| + 1 == n
  {
    k == 0 || (EntriesUpTo(names, reg, n, ps, k - 1) && names[k - 1] in reg && reg[names[k - 1]] == EndsOf(n, k - 1, ps))
  }

  /** `EntriesUpTo` holds exactly when every one of the first `k` entries is the chain's. */
  lemma {:induction false} EntriesUpToAll(names: seq<string>, reg: map<string, map<Mode, TransferPipe>>, n: nat,
                                          ps: seq<TransferPipe>, k: nat)
    requires k <= n <= |names| && |ps| + 1 == n
    ensures EntriesUpTo(names, reg, n, ps, k) <==>
            forall j :: 0 <= j < k ==> names[j] in reg && reg[names[j]] == EndsOf(n, j, ps)
  {
    if k > 0 {
      EntriesUpToAll(names, reg, n, ps, k - 1);
    }
  }

  /** In a wired prefix the last worker has no write end and the next one is not registered. */
  lemma WiredCanConnect(names: seq<string>, reg: map<string, map<Mode, TransferPipe>>, i: nat, ps: seq<TransferPipe>)
    requires 1 <= i < |names| && |ps| + 1 == i
    requires forall a, b :: 0 <= a < b < |names| ==> names[a] != names[b]
    requires Wired(names, reg, i, ps)
    ensures CanAdd(reg, names[i - 1], Write) && names[i] !in reg
  {
    KeysOfMember(names, i, names[i]);
  }

  /** After the next `connect`, every worker of the longer prefix holds the ends `ChainEnds` gives it. */
  lemma WiredStepEntries(names: seq<string>, reg: map<string, map<Mode, TransferPipe>>, i: nat,
                         ps: seq<TransferPipe>, p: TransferPipe)
    requires 1 <= i < |names| && |ps| + 1 == i
    requires forall a, b :: 0 <= a < b < |names| ==> names[a] != names[b]
    requires Wired(names, reg, i, ps)
    ensures var reg' := Register(Register(reg, names[i - 1], Write, p), names[i], Read, p);
            forall j :: 0 <= j < i + 1 ==> names[j] in reg' && reg'[names[j]] == EndsOf(i + 1, j, ps + [p])
  {
    var reg1 := Register(reg, names[i - 1], Write, p);
    var reg' := Register(reg1, names[i], Read, p);
    RegisterLookup(reg, names[i - 1], Write, p);
    RegisterLookup(reg1, names[i], Read, p);
    WiredCanConnect(names, reg, i, ps);
    EndsOfLast(i, ps, p);
    EntriesUpToAll(names, reg, i, ps, i);
    forall j | 0 <= j < i + 1
      ensures names[j] in reg' && reg'[names[j]] == EndsOf(i + 1, j, ps + [p])
    {
      if j + 1 < i {
        EndsOfGrow(i, ps, p, j);
        assert reg'[names[j]] == reg1[names[j]] == reg[names[j]];
      } else if j + 1 == i {
        assert reg'[names[j]] == reg1[names[j]];
        if i > 1 {
          assert reg1[names[j]] == reg[names[j]][Write := p];
        } else {
          assert reg1[names[j]] == map[Write := p];
        }
      }
    }
  }

  /** After the next `connect`, only the workers of the longer prefix are registered. */
  lemma WiredStepKeys(names: seq<string>, reg: map<string, map<Mode, TransferPipe>>, i: nat,
                      ps: seq<TransferPipe>, p: TransferPipe)
    requires 1 <= i < |names| && |ps| + 1 == i
    requires Wired(names, reg, i, ps)
    ensures Register(Register(reg, names[i - 1], Write, p), names[i], Read, p).Keys == KeysOf(names, i + 1)
  {
    var reg1 := Register(reg, names[i - 1], Write, p);
    RegisterLookup(reg, names[i - 1], Write, p);
    RegisterLookup(reg1, names[i], Read, p);
    assert KeysOf(names, i + 1) == KeysOf(names, i) + {names[i]};
    if i == 1 {
      assert KeysOf(names, 1) == {names[0]};
    }
  }

  /** One `connect` of the next worker extends a wired prefix by one pipe. */
  lemma WiredStep(names: seq<string>, reg: map<string, map<Mode, TransferPipe>>, i: nat,
                  ps: seq<TransferPipe>, p: TransferPipe)
    requires 1 <= i < |names| && |ps| + 1 == i
    requires forall a, b :: 0 <= a < b < |names| ==> names[a] != names[b]
    requires Wired(names, reg, i, ps)
    ensures Wired(names, Register(Register(reg, names[i - 1], Write, p), names[i], Read, p), i + 1, ps + [p])
  {
    WiredStepEntries(names, reg, i, ps, p);
    WiredStepKeys(names, reg, i, ps, p);
    var reg' := Register(Register(reg, names[i - 1], Write, p), names[i], Read, p);
    EntriesUpToAll(names, reg', i + 1, ps + [p], i + 1);
  }

  /**
   * In a wired chain every end of every pipe is held by a worker: pipe `k` by
   * worker `k` as its write end and by worker `k + 1` as its read end.
   */
  lemma WiredHoldsEveryEnd(names: seq<string>, reg: map<string, map<Mode, TransferPipe>>, n: nat,
                           ps: seq<TransferPipe>, k: nat)
    requires 1 <= n <= |names| && |ps| + 1 == n && k < |ps|
    requires Wired(names, reg, n, ps)
    ensures Holds(reg, names[k], ps[k], Write) && Holds(reg, names[k + 1], ps[k], Read)
  {
    EntriesUpToAll(names, reg, n, ps, n);
    assert reg[names[k]] == EndsOf(n, k, ps);
    assert reg[names[k + 1]] == EndsOf(n, k + 1, ps);
  }

  /**
   * Once a chain of at least two workers is wired and its first worker is not
   * named "__root__", the written `close("__root__")` raises AttributeError.
   */
  lemma CloseAsWrittenRaisesAfterPlumbing(m: PipeManager, names: seq<string>, n: nat)
    requires 2 <= n <= |names| && m.Valid() && |m.Pipes| + 1 == n && Wired(names, m.pipes, n, m.Pipes)
    requires names[0] != "__root__"
    ensures forall j :: 0 <= j < |m.names| ==> m.names[j] in m.pipes
    ensures CloseAsWritten(m.pipes, m.names, "__root__") == Fail(AttributeError)
  {
    WiredHoldsEveryEnd(names, m.pipes, n, m.Pipes, 0);
    assert names[0] in m.names;
    var j :| 0 <= j < |m.names| && m.names[j] == names[0];
    assert HoldsAny(m.pipes[m.names[j]]);
  }

  /**
   * In a wired chain none of whose workers is named "__root__", closing the
   * ends that some worker other than "__root__" holds closes every pipe
   * completely: both ends of every pipe belong to a named worker.
   */
  lemma ChainClosedByRoot(m: PipeManager, names: seq<string>, n: nat)
    requires 1 <= n <= |names| && m.Valid() && |m.Pipes| + 1 == n && Wired(names, m.pipes, n, m.Pipes)
    requires "__root__" !in names
    requires forall p: TransferPipe, md: Mode | p in m.Repr :: EndClosed(p, md) == m.ForeignTo(p, md, "__root__")
    ensures forall k :: 0 <= k < |m.Pipes| ==> m.Pipes[k].readClosed && m.Pipes[k].writeClosed
  {
    forall k | 0 <= k < |m.Pipes|
      ensures m.Pipes[k].readClosed && m.Pipes[k].writeClosed
    {
      WiredHoldsEveryEnd(names, m.pipes, n, m.Pipes, k);
      assert names[k] != "__root__" && names[k + 1] != "__root__";
      assert m.ForeignTo(m.Pipes[k], Read, "__root__") && m.ForeignTo(m.Pipes[k], Write, "__root__");
      assert EndClosed(m.Pipes[k], Read) && EndClosed(m.Pipes[k], Write);
    }
  }

  /** Every worker has gone through `start`: daemonized, zero count, no callbacks yet. */
  ghost predicate Started(ws: seq<TransferWorker>)
    reads ws
  {
    forall j :: 0 <= j < |ws| ==> ws[j].daemon && ws[j].transferCount == Some(0) && ws[j].Callbacks == []
  }

  /** The names of a worker list, in order. */
  function NamesOf(ws: seq<TransferWorker>): (names: seq<string>)
    ensures |names| == |ws| && forall j :: 0 <= j < |ws| ==> names[j] == ws[j].name
  {
    seq(|ws|, j requires 0 <= j < |ws| => ws[j].name)
  }

  /** The read end each worker holds, in order. */
  ghost function ReadEnds(ws: seq<TransferWorker>): (ends: seq<TransferPipe?>)
    reads ws
    ensures |ends| == |ws| && forall j :: 0 <= j < |ws| ==> ends[j] == ws[j].pipeRead
  {
    seq(|ws|, j requires 0 <= j < |ws| reads ws => ws[j].pipeRead)
  }

  /** The write end each worker holds, in order. */
  ghost function WriteEnds(ws: seq<TransferWorker>): (ends: seq<TransferPipe?>)
    reads ws
    ensures |ends| == |ws| && forall j :: 0 <= j < |ws| ==> ends[j] == ws[j].pipeWrite
  {
    seq(|ws|, j requires 0 <= j < |ws| reads ws => ws[j].pipeWrite)
  }

  /**
   * Everything of each worker, in order, apart from its bound ends: what
   * `__init__` configured, the phases `run` went through, and the state `start`
   * sets (daemon flag, transfer count, the counts reported since).
   */
  ghost function RestOf(ws: seq<TransferWorker>): (rs: seq<(Dict, seq<Phase>, bool, Option<int>, seq<int>)>)
    reads ws
    ensures |rs| == |ws|
    ensures forall j :: 0 <= j < |ws| ==>
              rs[j] == (ws[j].attrs, ws[j].Trace, ws[j].daemon, ws[j].transferCount, ws[j].Callbacks)
  {
    seq(|ws|, j requires 0 <= j < |ws| reads ws =>
      (ws[j].attrs, ws[j].Trace, ws[j].daemon, ws[j].transferCount, ws[j].Callbacks))
  }

  /** The configuration part of `RestOf`: attributes and phases, which `start` leaves alone. */
  function Configs(rs: seq<(Dict, seq<Phase>, bool, Option<int>, seq<int>)>): (cs: seq<(Dict, seq<Phase>)>)
    ensures |cs| == |rs| && forall j :: 0 <= j < |rs| ==> cs[j] == (rs[j].0, rs[j].1)
  {
    seq(|rs|, j requires 0 <= j < |rs| => (rs[j].0, rs[j].1))
  }

  /** What `__init__` configured in each worker, and the phases its `run` went through, in order. */
  ghost function ConfigOf(ws: seq<TransferWorker>): seq<(Dict, seq<Phase>)>
    reads ws
  {
    Configs(RestOf(ws))
  }

  /**
   * Given the read ends `rds` and write ends `wrs` the workers hold, the first
   * `i` workers are bound as a chain over `ps`: each holds the ends `ChainEnds`
   * gives it and keeps its earlier end where it gets none; the workers not
   * reached yet keep both earlier ends.
   */
  ghost predicate ChainBoundOn(rds: seq<TransferPipe?>, wrs: seq<TransferPipe?>, ps: seq<TransferPipe>, i: nat,
                               reads0: seq<TransferPipe?>, writes0: seq<TransferPipe?>)
    requires |wrs| == |rds| && |reads0| == |rds| && |writes0| == |rds|
    requires 1 <= i <= |rds| && |ps| + 1 == i
  {
    forall j :: 0 <= j < |rds| ==>
      if j < i then
        var e := ChainEnds(i, j);
        && rds[j] == (if e.read.Some? then ps[e.read.value] else reads0[j])
        && wrs[j] == (if e.write.Some? then ps[e.write.value] else writes0[j])
      else
        rds[j] == reads0[j] && wrs[j] == writes0[j]
  }

  /** Connecting worker `i - 1` to worker `i` through `p` extends the bound chain by one worker. */
  lemma ChainBoundStep(rds: seq<TransferPipe?>, wrs: seq<TransferPipe?>, ps: seq<TransferPipe>, p: TransferPipe,
                       i: nat, reads0: seq<TransferPipe?>, writes0: seq<TransferPipe?>)
    requires |wrs| == |rds| && |reads0| == |rds| && |writes0| == |rds|
    requires 1 <= i < |rds| && |ps| + 1 == i
    requires ChainBoundOn(rds, wrs, ps, i, reads0, writes0)
    ensures ChainBoundOn(rds[i := p], wrs[i - 1 := p], ps + [p], i + 1, reads0, writes0)
  {
    var rds', wrs', ps' := rds[i := p], wrs[i - 1 := p], ps + [p];
    forall j | 0 <= j < |rds|
      ensures if j < i + 1 then
                var e := ChainEnds(i + 1, j);
                && rds'[j] == (if e.read.Some? then ps'[e.read.value] else reads0[j])
                && wrs'[j] == (if e.write.Some? then ps'[e.write.value] else writes0[j])
              else
                rds'[j] == reads0[j] && wrs'[j] == writes0[j]
    {
      if j < i - 1 {
        assert ChainEnds(i + 1, j) == ChainEnds(i, j);
        if j > 0 {
          assert ps'[j - 1] == ps[j - 1];
        }
        assert ps'[j] == ps[j];
      } else if j == i - 1 && j > 0 {
        assert ps'[j - 1] == ps[j - 1];
      }
    }
  }

  /** The workers `ws` are bound as the first `i` links of a chain over `ps`, as `ChainBoundOn` states. */
  ghost predicate ChainBound(ws: seq<TransferWorker>, ps: seq<TransferPipe>, i: nat,
                             reads0: seq<TransferPipe?>, writes0: seq<TransferPipe?>)
    requires 1 <= i <= |ws| && |ps| + 1 == i && |reads0| == |ws| && |writes0| == |ws|
    reads ws
  {
    ChainBoundOn(ReadEnds(ws), WriteEnds(ws), ps, i, reads0, writes0)
  }

  /** No pipe occurs twice. */
  predicate Distinct(ps: seq<TransferPipe>)
  {
    forall a, b :: 0 <= a < b < |ps| ==> ps[a] != ps[b]
  }

  /** Every pipe in `ps` is open at both ends. */
  ghost predicate AllOpen(ps: set<TransferPipe>)
    reads ps
  {
    forall p :: p in ps ==> !p.readClosed && !p.writeClosed
  }

  /** `TransferManager`: the ordered worker list and the pipe registry it wires. */
  class TransferManager {
    var workers: seq<TransferWorker>
    var pipes: PipeManager?

    constructor (workers: seq<TransferWorker>)
      ensures this.workers == workers && pipes == null
    {
      this.workers := workers;
      pipes := null;
    }

    /** Worker names are unique within a run. */
    ghost predicate DistinctNames()
      reads this
    {
      forall i, j :: 0 <= i < j < |workers| ==> workers[i].name != workers[j].name
    }

    /**
     * One iteration of `plumb_workers`: connect worker `i - 1` to worker `i`.
     * The new pipe becomes the write end of the first and the read end of the
     * second; no other worker's ends change.
     */
    method ConnectPair(m: PipeManager, source: TransferWorker, target: TransferWorker, i: nat)
      requires 1 <= i < |workers| && DistinctNames()
      requires source == workers[i - 1] && target == workers[i]
      requires m.Valid() && |m.Pipes| + 1 == i && Wired(NamesOf(workers), m.pipes, i, m.Pipes)
      requires AllOpen(m.Repr) && Distinct(m.Pipes)
      modifies m, source`pipeRead, source`pipeWrite, target`pipeRead, target`pipeWrite
      ensures m.Valid() && |m.Pipes| == i && Wired(NamesOf(workers), m.pipes, i + 1, m.Pipes)
      ensures AllOpen(m.Repr) && Distinct(m.Pipes) && m.Pipes == old(m.Pipes) + [m.Pipes[i - 1]]
      ensures ReadEnds(workers) == old(ReadEnds(workers))[i := m.Pipes[i - 1]]
      ensures WriteEnds(workers) == old(WriteEnds(workers))[i - 1 := m.Pipes[i - 1]]
    {
      ghost var names := NamesOf(workers);
      assert forall a, b :: 0 <= a < b < |names| ==> names[a] != names[b];
      ghost var ps := m.Pipes;
      ghost var reg := m.pipes;
      WiredCanConnect(names, reg, i, ps);
      var r := m.Connect(source, target);
      assert r.Pass?;
      ghost var p := m.Pipes[|m.Pipes| - 1];
      WiredStep(names, reg, i, ps, p);
      forall j | 0 <= j < |workers| && j != i - 1 && j != i
        ensures workers[j] != source && workers[j] != target
      {
        assert names[j] != names[i - 1] && names[j] != names[i];
      }
    }

    /** `ConnectPair`, carrying the chain binding of the first `i` workers on to `i + 1`. */
    method ConnectNext(m: PipeManager, source: TransferWorker, target: TransferWorker, i: nat,
                       ghost reads0: seq<TransferPipe?>, ghost writes0: seq<TransferPipe?>)
      requires 1 <= i < |workers| && |reads0| == |workers| && |writes0| == |workers| && DistinctNames()
      requires source == workers[i - 1] && target == workers[i]
      requires m.Valid() && |m.Pipes| + 1 == i && Wired(NamesOf(workers), m.pipes, i, m.Pipes)
      requires ChainBound(workers, m.Pipes, i, reads0, writes0) && AllOpen(m.Repr) && Distinct(m.Pipes)
      modifies m, source`pipeRead, source`pipeWrite, target`pipeRead, target`pipeWrite
      ensures m.Valid() && |m.Pipes| == i && Wired(NamesOf(workers), m.pipes, i + 1, m.Pipes)
      ensures ChainBound(workers, m.Pipes, i + 1, reads0, writes0) && AllOpen(m.Repr) && Distinct(m.Pipes)
      ensures RestOf(workers) == old(RestOf(workers))
    {
      ghost var rds, wrs, ps := ReadEnds(workers), WriteEnds(workers), m.Pipes;
      ConnectPair(m, source, target, i);
      ChainBoundStep(rds, wrs, ps, m.Pipes[i - 1], i, reads0, writes0);
    }

    /**
     * `plumb_workers`: a new registry, then one pipe between each pair of
     * consecutive workers; an empty list raises at `self[0]`.
     */
    method PlumbWorkers() returns (r: Outcome<Error>)
      requires DistinctNames()
      modifies this`pipes, set w | w in workers
      ensures pipes != null && fresh(pipes) && pipes.Valid()
      ensures |workers| == 0 <==> r.Fail?
      ensures r.Fail? ==> r.error == IndexError
      ensures r.Pass? ==> |pipes.Pipes| + 1 == |workers| && pipes.pipeCount == |workers| - 1
      ensures r.Pass? ==> Wired(NamesOf(workers), pipes.pipes, |workers|, pipes.Pipes)
      ensures r.Pass? ==> ChainBound(workers, pipes.Pipes, |workers|, old(ReadEnds(workers)), old(WriteEnds(workers)))
      ensures AllOpen(pipes.Repr) && Distinct(pipes.Pipes)
      ensures RestOf(workers) == old(RestOf(workers))
    {
      ghost var reads0, writes0 := ReadEnds(workers), WriteEnds(workers);
      ghost var rest0 := RestOf(workers);
      var m := new PipeManager();
      pipes := m;
      if |workers| == 0 {
        r := Fail(IndexError);
        return;
      }
      var last := workers[0];
      var i := 1;
      while i < |workers|
        invariant 1 <= i <= |workers| && last == workers[i - 1]
        invariant pipes == m && fresh(m) && m.Valid() && |m.Pipes| + 1 == i
        invariant Wired(NamesOf(workers), m.pipes, i, m.Pipes)
        invariant ChainBound(workers, m.Pipes, i, reads0, writes0) && AllOpen(m.Repr) && Distinct(m.Pipes)
        invariant RestOf(workers) == rest0
      {
        var worker := workers[i];
        ConnectNext(m, last, worker, i, reads0, writes0);
        last := worker;
        i := i + 1;
      }
      r := Pass;
    }

    /** `close_pipes`: the parent closes every registered end that is not its own; before plumbing there is no registry. */
    method ClosePipes() returns (r: Outcome<Error>)
      requires pipes != null ==> pipes.Valid()
      modifies if pipes != null then pipes.Repr else {}
      ensures r.Fail? <==> pipes == null
      ensures r.Fail? ==> r.error == AttributeError
      ensures r.Pass? ==> forall p: TransferPipe, md: Mode | p in pipes.Repr ::
                EndClosed(p, md) == (old(EndClosed(p, md)) || pipes.ForeignTo(p, md, "__root__"))
      ensures forall j :: 0 <= j < |workers| ==> unchanged(workers[j])
    {
      if pipes == null {
        r := Fail(AttributeError);
        return;
      }
      pipes.Close("__root__");
      r := Pass;
    }

    /** `start_workers`: the part of each worker's `start` that is not process creation, in list order. */
    method StartWorkers()
      modifies set w | w in workers
      ensures Started(workers)
      ensures ReadEnds(workers) == old(ReadEnds(workers)) && WriteEnds(workers) == old(WriteEnds(workers))
      ensures ConfigOf(workers) == old(ConfigOf(workers))
    {
      var i := 0;
      while i < |workers|
        invariant 0 <= i <= |workers|
        invariant forall j :: 0 <= j < i ==>
                    workers[j].daemon && workers[j].transferCount == Some(0) && workers[j].Callbacks == []
        invariant forall j :: 0 <= j < |workers| ==>
                    workers[j].pipeRead == old(workers[j].pipeRead) && workers[j].pipeWrite == old(workers[j].pipeWrite)
        invariant forall j :: 0 <= j < |workers| ==>
                    workers[j].attrs == old(workers[j].attrs) && workers[j].Trace == old(workers[j].Trace)
      {
        workers[i].Start();
        i := i + 1;
      }
      assert ReadEnds(workers) == old(ReadEnds(workers));
      assert WriteEnds(workers) == old(WriteEnds(workers));
      assert ConfigOf(workers) == old(ConfigOf(workers));
    }

    /** The first two steps of `start`: plumb the workers, then start them. */
    method PlumbAndStart() returns (r: Outcome<Error>)
      requires DistinctNames()
      modifies this`pipes, set w | w in workers
      ensures |workers| == 0 <==> r.Fail?
      ensures r.Fail? ==> r.error == IndexError
      ensures r.Pass? ==> pipes != null && fresh(pipes) && pipes.Valid() && pipes.pipeCount == |workers| - 1
      ensures r.Pass? ==> Wired(NamesOf(workers), pipes.pipes, |workers|, pipes.Pipes) && AllOpen(pipes.Repr)
      ensures r.Pass? ==> ChainBound(workers, pipes.Pipes, |workers|, old(ReadEnds(workers)), old(WriteEnds(workers)))
      ensures r.Pass? ==> Started(workers)
      ensures ConfigOf(workers) == old(ConfigOf(workers))
    {
      r := PlumbWorkers();
      if r.Fail? {
        return;
      }
      ghost var m := pipes;
      ghost var reads0, writes0 := old(ReadEnds(workers)), old(WriteEnds(workers));
      StartWorkers();
      assert ChainBound(workers, m.Pipes, |workers|, reads0, writes0);
    }

    /**
     * `start`: plumb, start the workers, then close the parent's ends. Once
     * started, every worker is daemonized with a zero count and, when no worker
     * is named "__root__", the parent holds no open end of any pipe.
     */
    method Start() returns (r: Outcome<Error>)
      requires DistinctNames()
      modifies this`pipes, set w | w in workers
      ensures |workers| == 0 <==> r.Fail?
      ensures r.Fail? ==> r.error == IndexError
      ensures r.Pass? ==> pipes != null && fresh(pipes) && pipes.Valid() && pipes.pipeCount == |workers| - 1
      ensures r.Pass? ==> Wired(NamesOf(workers), pipes.pipes, |workers|, pipes.Pipes)
      ensures r.Pass? ==> ChainBound(workers, pipes.Pipes, |workers|, old(ReadEnds(workers)), old(WriteEnds(workers)))
      ensures r.Pass? ==> Started(workers)
      ensures r.Pass? ==> forall p: TransferPipe, md: Mode | p in pipes.Repr ::
                EndClosed(p, md) == pipes.ForeignTo(p, md, "__root__")
      ensures r.Pass? && "__root__" !in NamesOf(workers) ==>
                forall k :: 0 <= k < |pipes.Pipes| ==> pipes.Pipes[k].readClosed && pipes.Pipes[k].writeClosed
      ensures ConfigOf(workers) == old(ConfigOf(workers))
    {
      r := PlumbAndStart();
      if r.Fail? {
        return;
      }
      ghost var m := pipes;
      ghost var rds, wrs, cfg := ReadEnds(workers), WriteEnds(workers), ConfigOf(workers);
      r := ClosePipes();
      assert ReadEnds(workers) == rds && WriteEnds(workers) == wrs && ConfigOf(workers) == cfg;
      assert forall p: TransferPipe, md: Mode | p in m.Repr :: EndClosed(p, md) == m.ForeignTo(p, md, "__root__");
      if "__root__" !in NamesOf(workers) {
        ChainClosedByRoot(m, NamesOf(workers), |workers|);
      }
    }
  }
}
