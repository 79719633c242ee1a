/**
 * The syscall channel of glue/channel_syscall.c: a client whose signal handlers may make
 * further syscalls over the same channel, and a kernel that answers one request at a time,
 * interleaved at every access to the shared words.
 */
module Channel {
  import opened Int32
  import opened Wrappers

  const CH_IDLE := 0
  const CH_PENDING := 1
  const CH_COMPLETE := 2
  const CH_ERROR := 3
  const SA_SIGINFO := 4
  const SIG_SETMASK := 2
  const SYS_SIGPROCMASK := 37
  const SYS_RT_SIGRETURN := 208
  const SYS_FORK := 212
  const SYS_VFORK := 213
  const ENOSYS := 38

  /** Syscall number and six arguments; a pointer argument stands for what it points to. */
  datatype Request = Request(n: int, args: seq<int>)

  datatype Answer = Answer(ret: int, err: int)

  /** The signal record at the end of the channel; it is empty when `signum` is 0. */
  datatype Sig = Sig(signum: int, handler: int, flags: int, info: seq<int>, oldMask: int, altSp: nat, altSize: nat)

  /** A handler call: siginfo is passed only under SA_SIGINFO. */
  datatype Invocation = Invocation(handler: int, signum: int, info: Option<seq<int>>)

  function Invoke(sig: Sig, info: seq<int>): Invocation {
    Invocation(sig.handler, sig.signum, if (sig.flags / SA_SIGINFO) % 2 == 1 then Some(info) else None)
  }

  function SigreturnRequest(): Request { Request(SYS_RT_SIGRETURN, [0, 0, 0, 0, 0, 0]) }

  function SetMaskRequest(mask: int): Request { Request(SYS_SIGPROCMASK, [SIG_SETMASK, mask, 0, 8, 0, 0]) }

  /** Where `__do_syscall` stands. */
  datatype SysPc =
    | Rejecting
    | Writing(k: nat)
    | Publishing
    | Waiting
    | Asleep
    | ReadRet
    | ReadErr(ret: int)
    | Resetting(a: Answer)
    | Delivering(a: Answer)
    | Returning(a: Answer)

  /**
   * Where `__deliver_pending_signal` stands. `since` is the number of requests before the first it
   * makes itself; `first` and `second` are the numbers of the two it makes. No step reads these.
   */
  datatype DeliverPc =
    | Checking
    | Reading(signum: int)
    | Clearing(sig: Sig)
    | Switching(sig: Sig)
    | Invoking(sig: Sig, saved: int)
    | Handling(sig: Sig, saved: int)
    | Restoring(sig: Sig, saved: int)
    | CallSigreturn(sig: Sig, since: nat)
    | InSigreturn(sig: Sig, since: nat)
    | CallMask(sig: Sig, since: nat, first: int)
    | InMask(sig: Sig, since: nat, first: int)
    | Done(sig: Sig, since: nat, first: int, second: int)

  /**
   * Each frame but the program's records the stack pointer it was entered with, and whether that
   * pointer has been lost: by a switch to an alternate stack that cannot be undone, in this frame
   * or in a call it made. No step reads the latter.
   */
  datatype Frame =
    | Program
    | Sys(req: Request, id: int, pc: SysPc, sp: int, lost: bool)
    | Deliver(dpc: DeliverPc, sp: int, lost: bool)
    | Handler(sp: int)

  datatype Stack = Nil | Cons(top: Frame, rest: Stack)

  datatype Kernel = KIdle | KServing(req: Request) | KAnswered

  /** What the kernel did for a request: its answer, and the blocked mask after it. */
  datatype Service = Service(req: Request, answer: Answer, mask: int)

  /** A returned value and the number of the request it answers, -1 for a call that was never published. */
  datatype Return = Return(id: int, value: int)

  /** A record of the run, read by no step. */
  datatype History = History(
    issued: seq<Request>, served: seq<Service>,
    raised: seq<Sig>, handled: seq<Invocation>,
    returned: seq<Return>)

  datatype State = State(
    status: int, chan: Request, ret: int, err: int, sig: Sig,
    sp: int, mask: int, stack: Stack, kernel: Kernel, h: History)

  predicate Init(s: State) {
    && s.status == CH_IDLE && |s.chan.args| == 6 && s.sig.signum == 0
    && s.stack == Cons(Program, Nil) && s.kernel == KIdle
    && s.h == History([], [], [], [], [])
  }

  // ---- client steps ----

  function SetTop(s: State, f: Frame): State
    requires s.stack.Cons?
  {
    s.(stack := Cons(f, s.stack.rest))
  }

  function Push(s: State, caller: Frame, callee: Frame): State
    requires s.stack.Cons?
  {
    s.(stack := Cons(callee, Cons(caller, s.stack.rest)))
  }

  function Enter(req: Request, sp: int): Frame {
    Sys(req, -1, if req.n == SYS_FORK || req.n == SYS_VFORK then Rejecting else Writing(0), sp, false)
  }

  /** The number is stored in 32 bits. */
  function Wire(req: Request): Request { req.(n := ToI32(req.n)) }

  function StoreWord(c: Request, req: Request, k: nat): Request
    requires k <= 6 && |c.args| == 6 && |req.args| == 6
  {
    if k == 0 then c.(n := ToI32(req.n)) else c.(args := c.args[k - 1 := req.args[k - 1]])
  }

  /** musl's convention: a negative errno, or the result. */
  function Value(a: Answer): int { if a.err != 0 then -a.err else a.ret }

  predicate Lost(f: Frame) { (f.Sys? || f.Deliver?) && f.lost }

  function IdOf(f: Frame): int { if f.Sys? then f.id else -1 }

  /** The frame below goes on after a call has come back. */
  function Resume(caller: Frame, callee: Frame): Frame {
    var lost, id := Lost(callee), IdOf(callee);
    match caller
    case Sys(req, own, Delivering(a), sp, l) => Sys(req, own, Returning(a), sp, l || lost)
    case Deliver(Handling(sig, saved), sp, l) => Deliver(Restoring(sig, saved), sp, l || lost)
    case Deliver(InSigreturn(sig, since), sp, l) => Deliver(CallMask(sig, since, id), sp, l || lost)
    case Deliver(InMask(sig, since, first), sp, l) => Deliver(Done(sig, since, first, id), sp, l || lost)
    case _ => caller
  }

  function Pop(s: State): State
    requires s.stack.Cons? && s.stack.rest.Cons?
  {
    s.(stack := Cons(Resume(s.stack.rest.top, s.stack.top), s.stack.rest.rest))
  }

  predicate SysStep(s: State, t: State)
    requires s.stack.Cons? && s.stack.top.Sys?
  {
    var Sys(req, id, pc, sp, lost) := s.stack.top;
    match pc
    case Rejecting =>
      s.stack.rest.Cons? && t == Pop(s.(h := s.h.(returned := s.h.returned + [Return(-1, -ENOSYS)])))
    case Writing(k) =>
      if k <= 6 && |s.chan.args| == 6 && |req.args| == 6 then
        t == SetTop(s.(chan := StoreWord(s.chan, req, k)), Sys(req, id, Writing(k + 1), sp, lost))
      else
        t == SetTop(s, Sys(req, id, Publishing, sp, lost))
    case Publishing =>
      t == SetTop(s.(status := CH_PENDING, h := s.h.(issued := s.h.issued + [Wire(req)])),
                  Sys(req, |s.h.issued|, Waiting, sp, lost))
    case Waiting =>
      t == SetTop(s, Sys(req, id, if s.status == CH_PENDING then Asleep else ReadRet, sp, lost))
    case Asleep =>
      t == SetTop(s, Sys(req, id, Waiting, sp, lost))
    case ReadRet =>
      t == SetTop(s, Sys(req, id, ReadErr(s.ret), sp, lost))
    case ReadErr(ret) =>
      t == SetTop(s, Sys(req, id, Resetting(Answer(ret, s.err)), sp, lost))
    case Resetting(a) =>
      t == SetTop(s.(status := CH_IDLE), Sys(req, id, Delivering(a), sp, lost))
    case Delivering(a) =>
      t == Push(s, s.stack.top, Deliver(Checking, s.sp, false))
    case Returning(a) =>
      s.stack.rest.Cons? && t == Pop(s.(h := s.h.(returned := s.h.returned + [Return(id, Value(a))])))
  }

  function AltTop(sig: Sig): int { (sig.altSp + sig.altSize) % TWO32 }

  /** The stack pointer the handler starts with. */
  function HandlerSp(sig: Sig, sp: int): int { if sig.altSp != 0 then AltTop(sig) else sp }

  /** The restore at the end of a delivery is skipped when the saved stack pointer is zero. */
  predicate Restorable(sig: Sig, sp: int) { sp != 0 || HandlerSp(sig, sp) == sp }

  predicate DeliverStep(s: State, t: State)
    requires s.stack.Cons? && s.stack.top.Deliver?
  {
    var Deliver(pc, sp, lost) := s.stack.top;
    match pc
    case Checking =>
      if s.sig.signum == 0 then s.stack.rest.Cons? && t == Pop(s)
      else t == SetTop(s, Deliver(Reading(s.sig.signum), sp, lost))
    case Reading(signum) =>
      t == SetTop(s, Deliver(Clearing(s.sig.(signum := signum)), sp, lost))
    case Clearing(sig) =>
      t == SetTop(s.(sig := s.sig.(signum := 0)), Deliver(Switching(sig), sp, lost))
    case Switching(sig) =>
      t == SetTop(s.(sp := HandlerSp(sig, s.sp)),
                  Deliver(Invoking(sig, if sig.altSp != 0 then s.sp else 0), sp, lost || !Restorable(sig, s.sp)))
    case Invoking(sig, saved) =>
      t == Push(s.(h := s.h.(handled := s.h.handled + [Invoke(sig, s.sig.info)])),
                Deliver(Handling(sig, saved), sp, lost), Handler(s.sp))
    case Restoring(sig, saved) =>
      t == SetTop(s.(sp := if saved != 0 then saved else s.sp), Deliver(CallSigreturn(sig, |s.h.issued|), sp, lost))
    case CallSigreturn(sig, since) =>
      t == Push(s, Deliver(InSigreturn(sig, since), sp, lost), Enter(SigreturnRequest(), s.sp))
    case CallMask(sig, since, first) =>
      t == Push(s, Deliver(InMask(sig, since, first), sp, lost), Enter(SetMaskRequest(sig.oldMask), s.sp))
    case Done(_, _, _, _) =>
      s.stack.rest.Cons? && t == Pop(s)
    case _ => false
  }

  /** Program and handler code moves its stack pointer and makes syscalls; a handler returns with the one it got. */
  predicate CodeStep(s: State, t: State)
    requires s.stack.Cons? && (s.stack.top.Program? || s.stack.top.Handler?)
  {
    || t == s.(sp := t.sp)
    || (t.stack.Cons? && t.stack.top.Sys? && |t.stack.top.req.args| == 6
        && t == Push(s, s.stack.top, Enter(t.stack.top.req, s.sp)))
    || (s.stack.top.Handler? && s.stack.rest.Cons? && t == Pop(s.(sp := s.stack.top.sp)))
  }

  // ---- kernel steps ----

  /** SIG_SETMASK sets the blocked mask; other requests may do anything to it. */
  predicate Effect(req: Request, mask: int) {
    |req.args| == 6 && req == SetMaskRequest(req.args[1]) ==> mask == req.args[1]
  }

  /** The answer, and possibly a signal record that saves the mask the handler's one replaces. */
  predicate Serve(s: State, t: State, req: Request) {
    && |t.h.served| == |s.h.served| + 1
    && var v := t.h.served[|s.h.served|];
       && v.req == req && v.answer == Answer(t.ret, t.err) && Effect(req, v.mask)
       && (if t.sig == s.sig then t.mask == v.mask else t.sig.signum != 0 && t.sig.oldMask == v.mask)
       && t == s.(ret := t.ret, err := t.err, sig := t.sig, mask := t.mask, kernel := KAnswered,
                  h := s.h.(served := s.h.served + [v],
                            raised := if t.sig == s.sig then s.h.raised else s.h.raised + [t.sig]))
  }

  predicate KernelStep(s: State, t: State) {
    match s.kernel
    case KIdle => s.status == CH_PENDING && t == s.(kernel := KServing(s.chan))
    case KServing(req) => Serve(s, t, req)
    case KAnswered => (t.status == CH_COMPLETE || t.status == CH_ERROR) && t == s.(status := t.status, kernel := KIdle)
  }

  predicate ClientStep(s: State, t: State) {
    s.stack.Cons? &&
    match s.stack.top
    case Sys(_, _, _, _, _) => SysStep(s, t)
    case Deliver(_, _, _) => DeliverStep(s, t)
    case _ => CodeStep(s, t)
  }

  predicate Next(s: State, t: State) { ClientStep(s, t) || KernelStep(s, t) }

  ghost predicate Run(run: seq<State>) {
    && run != [] && Init(run[0])
    && forall k :: 0 <= k < |run| - 1 ==> Next(run[k], run[k + 1])
  }

  // ---- the invariant: frames that wait for a call to return ----

  predicate Answered(h: History, req: Request, id: int, a: Answer) {
    0 <= id < |h.served| && h.served[id].req == Wire(req) && h.served[id].answer == a
  }

  function SigOf(pc: DeliverPc): Option<Sig> {
    match pc
    case Checking => None
    case Reading(_) => None
    case Clearing(sig) => Some(sig)
    case Switching(sig) => Some(sig)
    case Invoking(sig, _) => Some(sig)
    case Handling(sig, _) => Some(sig)
    case Restoring(sig, _) => Some(sig)
    case CallSigreturn(sig, _) => Some(sig)
    case InSigreturn(sig, _) => Some(sig)
    case CallMask(sig, _, _) => Some(sig)
    case InMask(sig, _, _) => Some(sig)
    case Done(sig, _, _, _) => Some(sig)
  }

  /** The stack pointer stands at `sp` unless it is lost, which happens only to a zero one. */
  predicate Kept(now: int, sp: int, lost: bool) { (now == sp <==> !lost) && (lost ==> sp == 0) }

  /** After the restore of a delivery its own switch has decided, whatever the calls after it do. */
  predicate Settled(sig: Sig, now: int, sp: int, lost: bool) { Kept(now, sp, lost) && (!Restorable(sig, sp) ==> lost) }

  /** The number of a request made after the first `since`, once it has one. */
  predicate After(h: History, since: int, id: int) { 0 <= since <= |h.issued| && (id == -1 || since <= id) }

  /** The kernel has served `req`, as a request made after the first `since`. */
  predicate ServedAs(h: History, since: int, id: int, req: Request) {
    0 <= since <= id < |h.served| && h.served[id].req == req
  }

  /** `caller` stands at the call that `callee` is the frame of. */
  predicate Called(h: History, caller: Frame, callee: Frame) {
    match callee
    case Program => false
    case Sys(req, id, pc, sp, _) =>
      && |req.args| == 6 && pc.Rejecting? == (req.n == SYS_FORK || req.n == SYS_VFORK)
      && (match caller
          case Deliver(InSigreturn(sig, since), dsp, l) =>
            req == SigreturnRequest() && Settled(sig, sp, dsp, l) && After(h, since, id)
          case Deliver(InMask(sig, since, first), dsp, l) =>
            && req == SetMaskRequest(sig.oldMask) && Settled(sig, sp, dsp, l)
            && ServedAs(h, since, first, SigreturnRequest()) && After(h, first + 1, id)
          case _ => caller.Program? || caller.Handler?)
    case Deliver(pc, sp, _) =>
      && caller.Sys? && caller.pc.Delivering? && Answered(h, caller.req, caller.id, caller.pc.a)
      && Kept(sp, caller.sp, caller.lost)
      && (SigOf(pc).Some? ==> SigOf(pc).value.oldMask == h.served[caller.id].mask)
    case Handler(sp) =>
      && caller.Deliver? && caller.dpc.Handling?
      && sp == HandlerSp(caller.dpc.sig, caller.sp)
      && caller.dpc.saved == (if caller.dpc.sig.altSp != 0 then caller.sp else 0)
      && caller.lost == !Restorable(caller.dpc.sig, caller.sp)
  }

  predicate Chain(h: History, st: Stack) {
    match st
    case Nil => false
    case Cons(f, Nil) => f == Program
    case Cons(f, rest) => Called(h, rest.top, f) && Chain(h, rest)
  }

  // ---- the invariant: the running frame ----

  /** One signal record, `sig`, waits to be handled. */
  predicate Waits(h: History, sig: Sig) { |h.raised| == |h.handled| + 1 && h.raised[|h.handled|] == sig }

  /** No request is under way and no signal is owed. */
  predicate Calm(s: State) {
    && s.status == CH_IDLE && s.kernel == KIdle && s.sig.signum == 0
    && |s.h.served| == |s.h.issued| && |s.h.handled| == |s.h.raised|
  }

  /** The mask is as the last request left it, or is saved in the one record that waits to be handled. */
  predicate Owed(s: State, mask: int) {
    && |s.h.served| == |s.h.issued|
    && (if s.sig.signum == 0 then |s.h.handled| == |s.h.raised| && s.mask == mask
        else Waits(s.h, s.sig) && s.sig.oldMask == mask)
  }

  /** The kernel has written its answer to the request of this frame. */
  predicate HasAnswer(s: State, req: Request, id: int) {
    && id == |s.h.served| - 1 && Answered(s.h, req, id, Answer(s.ret, s.err)) && Owed(s, s.h.served[id].mask)
  }

  predicate WaitInv(s: State, req: Request, id: int) {
    && id == |s.h.issued| - 1 && 0 <= id && s.h.issued[id] == Wire(req)
    && match s.kernel
       case KIdle =>
         if s.status == CH_PENDING then
           s.chan == Wire(req) && |s.h.served| == id && s.sig.signum == 0 && |s.h.handled| == |s.h.raised|
         else
           (s.status == CH_COMPLETE || s.status == CH_ERROR) && HasAnswer(s, req, id)
       case KServing(r) =>
         && s.status == CH_PENDING
         && r == Wire(req) && |s.h.served| == id && s.sig.signum == 0 && |s.h.handled| == |s.h.raised|
       case KAnswered =>
         s.status == CH_PENDING && HasAnswer(s, req, id)
  }

  predicate Finished(s: State) {
    s.kernel == KIdle && (s.status == CH_COMPLETE || s.status == CH_ERROR)
  }

  predicate SysInv(s: State, f: Frame)
    requires f.Sys?
  {
    var Sys(req, id, pc, sp, lost) := f;
    && |req.args| == 6
    && Kept(s.sp, sp, lost)
    && match pc
       case Rejecting => Calm(s)
       case Writing(k) =>
         Calm(s) && k <= 7 && |s.chan.args| == 6
         && (0 < k ==> s.chan.n == ToI32(req.n) && s.chan.args[..k - 1] == req.args[..k - 1])
       case Publishing => Calm(s) && s.chan == Wire(req)
       case Waiting => WaitInv(s, req, id)
       case Asleep => WaitInv(s, req, id)
       case ReadRet => Finished(s) && HasAnswer(s, req, id)
       case ReadErr(ret) => Finished(s) && HasAnswer(s, req, id) && ret == s.ret
       case Resetting(a) => Finished(s) && HasAnswer(s, req, id) && a == Answer(s.ret, s.err)
       case Delivering(a) =>
         && s.status == CH_IDLE && s.kernel == KIdle
         && Answered(s.h, req, id, a) && Owed(s, s.h.served[id].mask)
       case Returning(a) =>
         Calm(s) && Answered(s.h, req, id, a) && s.mask == s.h.served[id].mask
  }

  predicate DeliverInv(s: State, f: Frame, caller: Frame)
    requires f.Deliver? && Called(s.h, caller, f)
  {
    var Deliver(pc, sp, lost) := f;
    && s.status == CH_IDLE && s.kernel == KIdle && |s.h.served| == |s.h.issued|
    && (!pc.Checking? && !pc.Reading? && !pc.Clearing? ==> s.sig.signum == 0)
    && (!pc.Checking? && !pc.Reading? && !pc.Clearing? && !pc.Switching? && !pc.Invoking? ==>
          |s.h.handled| == |s.h.raised|)
    && match pc
       case Checking => Owed(s, s.h.served[caller.id].mask) && s.sp == sp && !lost
       case Reading(signum) => Owed(s, s.h.served[caller.id].mask) && s.sp == sp && !lost && signum == s.sig.signum != 0
       case Clearing(sig) =>
         s.sp == sp && !lost && sig == s.sig && sig.signum != 0 && Waits(s.h, sig)
       case Switching(sig) =>
         s.sp == sp && !lost && s.sig == sig.(signum := 0) && Waits(s.h, sig)
       case Invoking(sig, saved) =>
         && s.sp == HandlerSp(sig, sp) && saved == (if sig.altSp != 0 then sp else 0)
         && lost == !Restorable(sig, sp)
         && s.sig == sig.(signum := 0) && Waits(s.h, sig)
       case Restoring(sig, saved) =>
         && s.sp == HandlerSp(sig, sp) && saved == (if sig.altSp != 0 then sp else 0)
         && lost == !Restorable(sig, sp)
       case CallSigreturn(sig, since) => Settled(sig, s.sp, sp, lost) && since <= |s.h.issued|
       case CallMask(sig, since, first) =>
         Settled(sig, s.sp, sp, lost) && ServedAs(s.h, since, first, SigreturnRequest())
       case Done(sig, since, first, second) =>
         && s.mask == sig.oldMask && Settled(sig, s.sp, sp, lost)
         && ServedAs(s.h, since, first, SigreturnRequest())
         && ServedAs(s.h, first + 1, second, SetMaskRequest(sig.oldMask))
       case _ => false
  }

  predicate TopInv(s: State)
    requires Chain(s.h, s.stack)
  {
    match s.stack.top
    case Sys(_, _, _, _, _) => SysInv(s, s.stack.top)
    case Deliver(_, _, _) => DeliverInv(s, s.stack.top, s.stack.rest.top)
    case _ => Calm(s)
  }

  predicate Records(s: State) {
    && |s.chan.args| == 6
    && |s.h.served| <= |s.h.issued|
    && (forall k :: 0 <= k < |s.h.served| ==>
          s.h.served[k].req == s.h.issued[k] && Effect(s.h.served[k].req, s.h.served[k].mask))
    && (forall k :: 0 <= k < |s.h.returned| ==> Honest(s.h, s.h.returned[k]))
    && |s.h.handled| <= |s.h.raised| <= |s.h.handled| + 1
    && (forall k :: 0 <= k < |s.h.handled| ==> s.h.handled[k] == Invoke(s.h.raised[k], s.h.raised[k].info))
  }

  /** A returned value is the kernel's answer to the request it was returned for; fork never becomes a request. */
  predicate Honest(h: History, r: Return) {
    if r.id == -1 then r.value == -ENOSYS
    else 0 <= r.id < |h.served| && r.value == Value(h.served[r.id].answer)
  }

  predicate Inv(s: State) {
    Records(s) && Chain(s.h, s.stack) && TopInv(s)
  }

  // ---- growth of the record ----

  predicate Grows(h: History, g: History) { h.served <= g.served && |h.issued| <= |g.issued| }

  lemma CalledGrows(h: History, g: History, caller: Frame, callee: Frame)
    requires Grows(h, g) && Called(h, caller, callee)
    ensures Called(g, caller, callee)
  {
  }

  lemma {:induction false} ChainGrows(h: History, g: History, st: Stack)
    requires Grows(h, g) && Chain(h, st)
    ensures Chain(g, st)
  {
    hide Called, Grows;
    if st.rest.Cons? {
      CalledGrows(h, g, st.rest.top, st.top);
      ChainGrows(h, g, st.rest);
    }
  }

  /** A frame that goes on keeps its place in the chain of calls. */
  lemma PopChain(h: History, st: Stack)
    requires Chain(h, st) && st.rest.Cons?
    ensures Chain(h, Cons(Resume(st.rest.top, st.top), st.rest.rest))
  {
    if st.rest.rest.Cons? {
      ResumeCalled(h, st.rest.rest.top, st.rest.top, st.top);
    }
  }

  lemma ResumeCalled(h: History, caller: Frame, f: Frame, callee: Frame)
    requires Called(h, caller, f)
    ensures Called(h, caller, Resume(f, callee))
  {
  }

  // ---- every step keeps the invariant ----

  lemma SysWrites(s: State, t: State)
    requires s.stack.Cons? && Inv(s) && s.stack.top.Sys? && SysStep(s, t) && s.stack.top.pc.Writing?
    ensures Inv(t)
  {
    WordStored(s, t);
  }

  lemma SysPublishes(s: State, t: State)
    requires s.stack.Cons? && Inv(s) && s.stack.top.Sys? && SysStep(s, t) && s.stack.top.pc.Publishing?
    ensures Inv(t)
  {
    ChainGrows(s.h, t.h, s.stack.rest);
  }

  lemma SysReads(s: State, t: State)
    requires s.stack.Cons? && Inv(s) && s.stack.top.Sys? && SysStep(s, t)
    requires var pc := s.stack.top.pc; pc.Waiting? || pc.Asleep? || pc.ReadRet? || pc.ReadErr? || pc.Resetting?
    ensures Inv(t)
  {
  }

  lemma WordStored(s: State, t: State)
    requires s.stack.Cons? && Inv(s) && s.stack.top.Sys? && SysStep(s, t) && s.stack.top.pc.Writing?
    ensures SysInv(t, t.stack.top) && |t.chan.args| == 6
  {
    var Sys(req, id, pc, _, _) := s.stack.top;
    if pc.k > 6 {
      assert s.chan.args[..6] == s.chan.args && req.args[..6] == req.args;
    }
  }

  lemma SysDelivers(s: State, t: State)
    requires s.stack.Cons? && Inv(s) && s.stack.top.Sys? && s.stack.top.pc.Delivering? && SysStep(s, t)
    ensures Inv(t)
  {
  }

  lemma SysReturns(s: State, t: State)
    requires s.stack.Cons? && Inv(s) && s.stack.top.Sys? && (s.stack.top.pc.Returning? || s.stack.top.pc.Rejecting?)
    requires SysStep(s, t)
    ensures Inv(t)
  {
    ChainGrows(s.h, t.h, s.stack);
    PopChain(t.h, s.stack);
    hide Chain;
    var Sys(req, id, pc, _, _) := s.stack.top;
    assert s.stack.rest.top.Deliver? && s.stack.rest.top.dpc.InMask? ==>
        Effect(s.h.served[id].req, s.h.served[id].mask);
  }

  lemma DeliverMoves(s: State, t: State)
    requires s.stack.Cons? && Inv(s) && s.stack.top.Deliver? && DeliverStep(s, t)
    requires var pc := s.stack.top.dpc;
             pc.Reading? || pc.Clearing? || pc.Switching? || pc.Restoring? || (pc.Checking? && s.sig.signum != 0)
    ensures Inv(t)
  {
    ChainGrows(s.h, t.h, s.stack.rest);
  }

  lemma DeliverCalls(s: State, t: State)
    requires s.stack.Cons? && Inv(s) && s.stack.top.Deliver? && DeliverStep(s, t)
    requires var pc := s.stack.top.dpc; pc.Invoking? || pc.CallSigreturn? || pc.CallMask?
    ensures Inv(t)
  {
    ChainGrows(s.h, t.h, s.stack.rest);
  }

  lemma DeliverReturns(s: State, t: State)
    requires s.stack.Cons? && Inv(s) && s.stack.top.Deliver? && DeliverStep(s, t)
    requires s.stack.top.dpc.Done? || (s.stack.top.dpc.Checking? && s.sig.signum == 0)
    ensures Inv(t)
  {
    PopChain(s.h, s.stack);
  }

  lemma CodeKeeps(s: State, t: State)
    requires Inv(s) && (s.stack.top.Program? || s.stack.top.Handler?) && CodeStep(s, t)
    ensures Inv(t)
  {
    if s.stack.rest.Cons? { PopChain(s.h, s.stack); }
  }

  lemma KernelKeeps(s: State, t: State)
    requires Inv(s) && KernelStep(s, t)
    ensures Inv(t)
  {
    assert s.stack.top.Sys? && (s.stack.top.pc.Waiting? || s.stack.top.pc.Asleep?);
    ChainGrows(s.h, t.h, s.stack);
    hide Chain;
  }

  lemma StepKeeps(s: State, t: State)
    requires Inv(s) && Next(s, t)
    ensures Inv(t)
  {
    hide Inv, SysStep, DeliverStep, CodeStep, KernelStep;
    if KernelStep(s, t) {
      KernelKeeps(s, t);
    } else {
      match s.stack.top
      case Sys(_, _, _, _, _) => SysKeeps(s, t);
      case Deliver(_, _, _) => DeliverKeeps(s, t);
      case _ => CodeKeeps(s, t);
    }
  }

  lemma SysKeeps(s: State, t: State)
    requires s.stack.Cons? && Inv(s) && s.stack.top.Sys? && SysStep(s, t)
    ensures Inv(t)
  {
    hide Inv, SysStep;
    match s.stack.top.pc
    case Rejecting => SysReturns(s, t);
    case Writing(_) => SysWrites(s, t);
    case Publishing => SysPublishes(s, t);
    case Delivering(_) => SysDelivers(s, t);
    case Returning(_) => SysReturns(s, t);
    case _ => SysReads(s, t);
  }

  lemma DeliverKeeps(s: State, t: State)
    requires s.stack.Cons? && Inv(s) && s.stack.top.Deliver? && DeliverStep(s, t)
    ensures Inv(t)
  {
    hide Inv;
    match s.stack.top.dpc
    case Checking =>
      if s.sig.signum == 0 {
        DeliverReturns(s, t);
      } else {
        DeliverMoves(s, t);
      }
    case Done(_, _, _, _) => DeliverReturns(s, t);
    case Invoking(_, _) => DeliverCalls(s, t);
    case CallSigreturn(_, _) => DeliverCalls(s, t);
    case CallMask(_, _, _) => DeliverCalls(s, t);
    case _ => DeliverMoves(s, t);
  }

  lemma {:induction false} RunInv(run: seq<State>, k: nat)
    requires Run(run) && k < |run|
    ensures Inv(run[k])
  {
    hide Next, Inv;
    if k == 0 {
      InitInv(run[0]);
    } else {
      RunInv(run, k - 1);
      assert Next(run[k - 1], run[k - 1 + 1]);
      StepKeeps(run[k - 1], run[k]);
    }
  }

  lemma InitInv(s: State)
    requires Init(s)
    ensures Inv(s)
  {
  }

  // ---- what every run keeps ----

  /**
   * Every value a syscall has returned is the kernel's answer to its own request (a negative
   * errno when the answer has one), and the kernel has served the requests in order, each once.
   */
  lemma OwnAnswers(run: seq<State>, k: nat)
    requires Run(run) && k < |run|
    ensures var h := run[k].h;
            && |h.served| <= |h.issued| <= |h.served| + 1
            && (forall j :: 0 <= j < |h.served| ==> h.served[j].req == h.issued[j])
            && (forall j :: 0 <= j < |h.returned| ==>
                  var r := h.returned[j];
                  && -1 <= r.id < |h.served|
                  && (r.id == -1 ==> r.value == -38)
                  && (r.id >= 0 ==>
                        var a := h.served[r.id].answer;
                        (a.err != 0 ==> r.value == -a.err) && (a.err == 0 ==> r.value == a.ret)))
  {
    RunInv(run, k);
    var h := run[k].h;
    assert forall j :: 0 <= j < |h.returned| ==> Honest(h, h.returned[j]);
    hide Inv;
  }

  /** A frame about to return holds the answer to the very request it was called with. */
  lemma OwnRequest(run: seq<State>, k: nat)
    requires Run(run) && k < |run| && run[k].stack.Cons? && run[k].stack.top.Sys? && run[k].stack.top.pc.Returning?
    ensures var Sys(req, id, pc, _, _) := run[k].stack.top;
            && 0 <= id < |run[k].h.served| <= |run[k].h.issued|
            && run[k].h.issued[id].args == req.args && run[k].h.served[id].answer == pc.a
            && -0x8000_0000 <= run[k].h.issued[id].n < 0x8000_0000
            && (run[k].h.issued[id].n - req.n) % 0x1_0000_0000 == 0
  {
    RunInv(run, k);
    assert run[k].h.served[run[k].stack.top.id].req == run[k].h.issued[run[k].stack.top.id];
  }

  /** `fork` and `vfork` are refused on the spot, and nothing else is. */
  lemma ForkRefused(run: seq<State>, k: nat)
    requires Run(run) && k < |run| && run[k].stack.Cons? && run[k].stack.top.Sys?
    ensures run[k].stack.top.pc.Rejecting? <==> run[k].stack.top.req.n == 212 || run[k].stack.top.req.n == 213
  {
    RunInv(run, k);
  }

  /** Results are read only after the kernel has answered and finished, whatever wakes the client. */
  lemma NeverReadPending(run: seq<State>, k: nat)
    requires Run(run) && k < |run| && run[k].stack.Cons? && run[k].stack.top.Sys?
    requires run[k].stack.top.pc.ReadRet? || run[k].stack.top.pc.ReadErr?
    ensures var s := run[k];
            && s.status != CH_PENDING && s.kernel == KIdle
            && 0 < |s.h.served| == |s.h.issued| && s.h.served[|s.h.served| - 1].answer == Answer(s.ret, s.err)
  {
    RunInv(run, k);
  }

  /**
   * The signal record is empty whenever a request is published, so no record is overwritten:
   * handlers are called for exactly the signals raised, in order, but for one still waiting.
   */
  lemma SignalsHandledOnce(run: seq<State>, k: nat)
    requires Run(run) && k < |run|
    ensures |run[k].h.handled| <= |run[k].h.raised| <= |run[k].h.handled| + 1
    ensures forall j :: 0 <= j < |run[k].h.handled| ==>
              var call, record := run[k].h.handled[j], run[k].h.raised[j];
              && call.handler == record.handler && call.signum == record.signum
              && call.info == if record.flags % 8 >= 4 then Some(record.info) else None
    ensures k + 1 < |run| && run[k].status != CH_PENDING && run[k + 1].status == CH_PENDING ==>
              run[k].sig.signum == 0 && |run[k].h.handled| == |run[k].h.raised|
  {
    RunInv(run, k);
    hide Next, Inv;
    HandledAsRaised(run[k]);
    if k + 1 < |run| && run[k].status != CH_PENDING && run[k + 1].status == CH_PENDING {
      assert Next(run[k], run[k + 1]);
      PublishedEmpty(run[k], run[k + 1]);
    }
  }

  lemma PublishedEmpty(s: State, t: State)
    requires Inv(s) && Next(s, t) && s.status != CH_PENDING && t.status == CH_PENDING
    ensures s.sig.signum == 0 && |s.h.handled| == |s.h.raised|
  {
  }

  lemma HandledAsRaised(s: State)
    requires Inv(s)
    ensures |s.h.handled| <= |s.h.raised| <= |s.h.handled| + 1
    ensures forall j :: 0 <= j < |s.h.handled| ==>
              var call, record := s.h.handled[j], s.h.raised[j];
              && call.handler == record.handler && call.signum == record.signum
              && call.info == if record.flags % 8 >= 4 then Some(record.info) else None
  {
    hide Chain, TopInv;
  }

  /** A handler starts at the top of the record's alternate stack, or where the delivery stood without one. */
  lemma HandlerStarts(run: seq<State>, k: nat)
    requires Run(run) && k < |run| && run[k].stack.Cons? && run[k].stack.top.Handler?
    ensures var st := run[k].stack;
            && st.rest.Cons? && st.rest.top.Deliver? && st.rest.top.dpc.Handling?
            && var sig := st.rest.top.dpc.sig;
               st.top.sp == if sig.altSp != 0 then (sig.altSp + sig.altSize) % 0x1_0000_0000 else st.rest.top.sp
  {
    RunInv(run, k);
  }

  // ---- the stack pointer: exactly when it is put back ----

  /** A switch to the alternate stack from a stack pointer of zero, which the restore will not undo. */
  predicate SwitchesFromZero(s: State) {
    s.stack.Cons? && s.stack.top.Deliver? && s.stack.top.dpc.Switching? && !Restorable(s.stack.top.dpc.sig, s.sp)
  }

  function Depth(st: Stack): nat { if st.Nil? then 0 else 1 + Depth(st.rest) }

  /** No handler runs above the frame at depth `d`. */
  predicate NoHandler(st: Stack, d: nat) {
    Depth(st) <= d || (!st.top.Handler? && NoHandler(st.rest, d))
  }

  /** The frame at depth `d` belongs to a syscall or a delivery. */
  predicate OwnFrame(st: Stack, d: nat) {
    0 < d <= Depth(st) && if Depth(st) == d then st.top.Sys? || st.top.Deliver? else OwnFrame(st.rest, d)
  }

  /** At moment `j` a delivery in the frame at depth `d`, outside any handler,
      switched from zero; the frame is there still. */
  ghost predicate OwnSwitch(run: seq<State>, j: nat, k: nat, d: nat)
    requires j <= k < |run|
  {
    && SwitchesFromZero(run[j]) && NoHandler(run[j].stack, d)
    && forall q :: j <= q <= k ==> d <= Depth(run[q].stack)
  }

  /** Some frame from depth `d` up, below any handler, has lost its stack pointer. */
  predicate LostFrom(st: Stack, d: nat) {
    d <= Depth(st) && st.Cons? && ((Lost(st.top) && NoHandler(st, d)) || LostFrom(st.rest, d))
  }

  lemma LostMoves(st: Stack, f: Frame, d: nat)
    requires st.Cons? && f.Handler? == st.top.Handler? && OwnFrame(Cons(f, st.rest), d)
    requires (f.Sys? || f.Deliver?) == (st.top.Sys? || st.top.Deliver?)
    ensures OwnFrame(st, d)
    ensures LostFrom(Cons(f, st.rest), d) <==> LostFrom(st.rest, d) || (Lost(f) && NoHandler(st, d))
    ensures LostFrom(st, d) <==> LostFrom(st.rest, d) || (Lost(st.top) && NoHandler(st, d))
  {
  }

  lemma LostPushed(st: Stack, caller: Frame, callee: Frame, d: nat)
    requires st.Cons? && caller.Handler? == st.top.Handler? && !Lost(callee) && Lost(caller) == Lost(st.top)
    requires (caller.Sys? || caller.Deliver?) == (st.top.Sys? || st.top.Deliver?)
    requires OwnFrame(Cons(callee, Cons(caller, st.rest)), d)
    ensures d <= Depth(st) ==> OwnFrame(st, d)
    ensures LostFrom(Cons(callee, Cons(caller, st.rest)), d) <==> d <= Depth(st) && LostFrom(st, d)
  {
    if d <= Depth(st) { LostMoves(st, caller, d); }
  }

  lemma LostPopped(st: Stack, d: nat)
    requires st.Cons? && st.rest.Cons? && OwnFrame(Cons(Resume(st.rest.top, st.top), st.rest.rest), d)
    requires Lost(st.top) && (st.rest.top.Sys? || st.rest.top.Deliver?) ==> Lost(Resume(st.rest.top, st.top))
    requires st.rest.top.Program? ==> st.rest.rest.Nil?
    ensures OwnFrame(st, d)
    ensures LostFrom(Cons(Resume(st.rest.top, st.top), st.rest.rest), d) <==> LostFrom(st, d)
  {
    var f := Resume(st.rest.top, st.top);
    LostMoves(st.rest, f, d);
    assert LostFrom(st, d) <==> LostFrom(st.rest, d) || (Lost(st.top) && NoHandler(st, d));
  }

  lemma LostSys(s: State, t: State, d: nat)
    requires Inv(s) && s.stack.Cons? && s.stack.top.Sys? && SysStep(s, t) && OwnFrame(t.stack, d)
    ensures d <= Depth(s.stack) ==> OwnFrame(s.stack, d)
    ensures LostFrom(t.stack, d) <==> d <= Depth(s.stack) && LostFrom(s.stack, d)
  {
    hide LostFrom, OwnFrame, NoHandler, Inv;
    var pc := s.stack.top.pc;
    DepthWithin(t.stack, d);
    if pc.Rejecting? || pc.Returning? {
      CallerKnown(s);
      LostPopped(s.stack, d);
    } else if pc.Delivering? {
      LostPushed(s.stack, s.stack.top, t.stack.top, d);
    } else {
      LostMoves(s.stack, t.stack.top, d);
    }
  }

  lemma DepthWithin(st: Stack, d: nat)
    ensures OwnFrame(st, d) ==> 0 < d <= Depth(st)
    ensures st.Cons? ==> Depth(st) == 1 + Depth(st.rest)
  {
  }

  /** A frame that returns has a caller, and the program is at the bottom. */
  lemma CallerKnown(s: State)
    requires Inv(s) && s.stack.Cons? && !s.stack.top.Program?
    ensures s.stack.rest.Cons? && (s.stack.rest.top.Program? ==> s.stack.rest.rest.Nil?)
    ensures Lost(s.stack.top) && (s.stack.rest.top.Sys? || s.stack.rest.top.Deliver?) ==>
              Lost(Resume(s.stack.rest.top, s.stack.top))
    ensures s.stack.top.Handler? ==> !Lost(s.stack.top)
  {
    assert Chain(s.h, s.stack.rest);
  }

  lemma LostDeliver(s: State, t: State, d: nat)
    requires Inv(s) && s.stack.Cons? && s.stack.top.Deliver? && DeliverStep(s, t) && OwnFrame(t.stack, d)
    ensures d <= Depth(s.stack) ==> OwnFrame(s.stack, d)
    ensures LostFrom(t.stack, d) <==>
              d <= Depth(s.stack) && (LostFrom(s.stack, d) || (SwitchesFromZero(s) && NoHandler(s.stack, d)))
  {
    hide LostFrom, OwnFrame, NoHandler, Inv;
    var pc := s.stack.top.dpc;
    DepthWithin(t.stack, d);
    if pc.Done? || (pc.Checking? && s.sig.signum == 0) {
      CallerKnown(s);
      LostPopped(s.stack, d);
    } else if pc.Invoking? || pc.CallSigreturn? || pc.CallMask? {
      LostPushed(s.stack, t.stack.rest.top, t.stack.top, d);
    } else {
      LostMoves(s.stack, t.stack.top, d);
    }
  }

  lemma LostCode(s: State, t: State, d: nat)
    requires Inv(s) && s.stack.Cons? && (s.stack.top.Program? || s.stack.top.Handler?) && CodeStep(s, t)
    requires OwnFrame(t.stack, d)
    ensures d <= Depth(s.stack) ==> OwnFrame(s.stack, d)
    ensures LostFrom(t.stack, d) <==> d <= Depth(s.stack) && LostFrom(s.stack, d)
  {
    hide LostFrom, OwnFrame, NoHandler, Inv;
    if s.stack.top.Handler? { CallerKnown(s); }
    DepthWithin(t.stack, d);
    if t.stack != s.stack {
      if t.stack.top.Sys? && t == Push(s, s.stack.top, Enter(t.stack.top.req, s.sp)) {
        LostPushed(s.stack, s.stack.top, t.stack.top, d);
      } else {
        LostPopped(s.stack, d);
      }
    }
  }

  /** The kernel acts only while the client waits, and touches no frame. */
  lemma KernelLeavesStack(s: State, t: State)
    requires Inv(s) && KernelStep(s, t)
    ensures t.stack == s.stack && s.stack.Cons? && s.stack.top.Sys?
  {
  }

  /** One step: a frame's pointer is lost when it was, or when a delivery in it switches from zero. */
  lemma LostStep(s: State, t: State, d: nat)
    requires Inv(s) && Next(s, t) && OwnFrame(t.stack, d)
    ensures d <= Depth(s.stack) ==> OwnFrame(s.stack, d)
    ensures LostFrom(t.stack, d) <==>
              d <= Depth(s.stack) && (LostFrom(s.stack, d) || (SwitchesFromZero(s) && NoHandler(s.stack, d)))
  {
    hide Inv, SysStep, DeliverStep, CodeStep, KernelStep, LostFrom, OwnFrame, NoHandler, Depth;
    if KernelStep(s, t) {
      KernelLeavesStack(s, t);
      DepthWithin(t.stack, d);
    } else {
      match s.stack.top
      case Sys(_, _, _, _, _) => LostSys(s, t, d);
      case Deliver(_, _, _) => LostDeliver(s, t, d);
      case _ => LostCode(s, t, d);
    }
  }

  lemma NothingAtFirst(s: State, d: nat)
    requires Init(s)
    ensures !OwnFrame(s.stack, d)
  {
  }

  /** The moments before `n` are those before `k`, and `k` itself. */
  lemma SwitchesSoFar(run: seq<State>, k: nat, n: nat, d: nat)
    requires n == k + 1 < |run| && d <= Depth(run[k].stack) && d <= Depth(run[n].stack)
    ensures (exists j: nat :: j < n && OwnSwitch(run, j, n, d)) <==>
              (exists j: nat :: j < k && OwnSwitch(run, j, k, d)) ||
              (SwitchesFromZero(run[k]) && NoHandler(run[k].stack, d))
  {
    hide SwitchesFromZero, NoHandler, Depth;
    if j: nat :| j < n && OwnSwitch(run, j, n, d) {
      assert j < k ==> OwnSwitch(run, j, k, d);
    }
    if j: nat :| j < k && OwnSwitch(run, j, k, d) {
      assert OwnSwitch(run, j, n, d);
    }
    if SwitchesFromZero(run[k]) && NoHandler(run[k].stack, d) {
      assert OwnSwitch(run, k, n, d);
    }
  }

  /** The record of lost pointers, read off the run. */
  lemma {:induction false} LostMeans(run: seq<State>, k: nat, d: nat)
    requires Run(run) && k < |run| && OwnFrame(run[k].stack, d)
    ensures LostFrom(run[k].stack, d) <==> exists j: nat :: j < k && OwnSwitch(run, j, k, d)
  {
    hide Next, Inv, Init, LostFrom, OwnFrame, SwitchesFromZero, NoHandler, Depth;
    if k == 0 {
      NothingAtFirst(run[0], d);
    } else {
      RunInv(run, k - 1);
      assert Next(run[k - 1], run[k - 1 + 1]);
      LostStep(run[k - 1], run[k], d);
      DepthWithin(run[k].stack, d);
      if d <= Depth(run[k - 1].stack) {
        LostMeans(run, k - 1, d);
        SwitchesSoFar(run, k - 1, k, d);
      }
    }
  }

  // ---- what a syscall and a delivery give back ----

  /**
   * A syscall returns with the blocked mask as the kernel left it for that request, however many
   * signals were handled inside it and however deep they nested. It returns with the stack pointer
   * it was called with exactly unless a delivery of its own, outside any handler, switched to an
   * alternate stack from zero; called with another stack pointer, it always gives it back.
   */
  lemma SyscallRestores(run: seq<State>, k: nat)
    requires Run(run) && k < |run| && run[k].stack.Cons? && run[k].stack.top.Sys? && run[k].stack.top.pc.Returning?
    ensures var s, f := run[k], run[k].stack.top;
            && 0 <= f.id < |s.h.served| && s.mask == s.h.served[f.id].mask
            && (f.sp != 0 ==> s.sp == f.sp)
            && (s.sp != f.sp <==> exists j: nat :: j < k && OwnSwitch(run, j, k, Depth(s.stack)))
  {
    RunInv(run, k);
    TopLost(run[k].stack);
    LostMeans(run, k, Depth(run[k].stack));
  }

  lemma TopLost(st: Stack)
    requires st.Cons? && (st.top.Sys? || st.top.Deliver?)
    ensures OwnFrame(st, Depth(st)) && (LostFrom(st, Depth(st)) <==> Lost(st.top))
  {
  }

  /**
   * A finished delivery has put back the mask its record saved, and the stack pointer it started
   * with under the same exact condition. A delivery that itself switched from zero has lost it.
   */
  lemma DeliveryRestores(run: seq<State>, k: nat)
    requires Run(run) && k < |run| && run[k].stack.Cons? && run[k].stack.top.Deliver? && run[k].stack.top.dpc.Done?
    ensures var s, f := run[k], run[k].stack.top;
            && s.mask == f.dpc.sig.oldMask && s.sig.signum == 0
            && f.dpc.since <= f.dpc.first < f.dpc.second < |s.h.served|
            && s.h.served[f.dpc.first].req == Request(208, [0, 0, 0, 0, 0, 0])
            && s.h.served[f.dpc.second].req == Request(37, [2, f.dpc.sig.oldMask, 0, 8, 0, 0])
            && (f.sp != 0 ==> s.sp == f.sp)
            && (!Restorable(f.dpc.sig, f.sp) ==> s.sp != f.sp)
            && (s.sp != f.sp <==> exists j: nat :: j < k && OwnSwitch(run, j, k, Depth(s.stack)))
  {
    RunInv(run, k);
    TopLost(run[k].stack);
    LostMeans(run, k, Depth(run[k].stack));
  }

  /** One delivery puts the stack pointer back exactly when it did not switch away from zero. */
  lemma RestoreExact(run: seq<State>, k: nat)
    requires Run(run) && k + 1 < |run| && run[k].stack.Cons? && run[k].stack.top.Deliver?
    requires run[k].stack.top.dpc.Restoring?
    ensures var f := run[k].stack.top;
            && (run[k + 1].sp == f.sp <==> Restorable(f.dpc.sig, f.sp))
            && run[k + 1].stack.Cons? && run[k + 1].stack.top.Deliver?
            && run[k + 1].stack.top.dpc == CallSigreturn(f.dpc.sig, |run[k].h.issued|)
  {
    RunInv(run, k);
    assert Next(run[k], run[k + 1]);
  }

  lemma Extend(run: seq<State>, t: State) returns (more: seq<State>)
    requires Run(run) && Next(run[|run| - 1], t)
    ensures Run(more) && more == run + [t]
  {
    hide Next, Init;
    more := run + [t];
    forall k | 0 <= k < |more| - 1
      ensures Next(more[k], more[k + 1])
    {
      if k + 1 < |run| { assert Next(run[k], run[k + 1]); }
    }
  }

  /** Request 1 of a program whose stack pointer is 0, as far as its publication. */
  lemma PublishFromZero(sig: Sig) returns (run: seq<State>)
    requires sig.signum == 0
    ensures Run(run)
    ensures var req := Request(1, [0, 0, 0, 0, 0, 0]);
            run[|run| - 1] == State(CH_IDLE, req, 0, 0, sig, 0, 0,
                                    Cons(Sys(req, -1, Publishing, 0, false), Cons(Program, Nil)), KIdle,
                                    History([], [], [], [], []))
  {
    var req := Request(1, [0, 0, 0, 0, 0, 0]);
    var h := History([], [], [], [], []);
    var s := State(CH_IDLE, req, 0, 0, sig, 0, 0, Cons(Program, Nil), KIdle, h);
    run := [s];
    s := s.(stack := Cons(Sys(req, -1, Writing(0), 0, false), Cons(Program, Nil)));
    run := Extend(run, s);
    var k := 0;
    while k < 7
      invariant 0 <= k <= 7 && Run(run) && s == run[|run| - 1]
      invariant s == State(CH_IDLE, req, 0, 0, sig, 0, 0,
                           Cons(Sys(req, -1, Writing(k), 0, false), Cons(Program, Nil)), KIdle, h)
    {
      assert StoreWord(req, req, k) == req;
      s := s.(stack := Cons(Sys(req, -1, Writing(k + 1), 0, false), Cons(Program, Nil)));
      run := Extend(run, s);
      k := k + 1;
    }
    s := s.(stack := Cons(Sys(req, -1, Publishing, 0, false), Cons(Program, Nil)));
    run := Extend(run, s);
  }

  /** The kernel answers 0 and raises `sig`; the client reads the answer and goes to deliver. */
  lemma RaiseFromZero(empty: Sig, sig: Sig) returns (run: seq<State>)
    requires empty.signum == 0 && sig.signum != 0 && sig.oldMask == 0
    ensures Run(run)
    ensures var s, req := run[|run| - 1], Request(1, [0, 0, 0, 0, 0, 0]);
            && s.status == CH_IDLE && s.kernel == KIdle && s.sig == sig && s.sp == 0
            && s.stack == Cons(Deliver(Checking, 0, false),
                            Cons(Sys(req, 0, Delivering(Answer(0, 0)), 0, false), Cons(Program, Nil)))
  {
    run := PublishFromZero(empty);
    var req := Request(1, [0, 0, 0, 0, 0, 0]);
    var below := Cons(Program, Nil);
    var s := run[|run| - 1];
    s := s.(status := CH_PENDING, stack := Cons(Sys(req, 0, Waiting, 0, false), below), h := s.h.(issued := [req]));
    run := Extend(run, s);
    s := s.(kernel := KServing(req));
    run := Extend(run, s);
    s := s.(kernel := KAnswered, sig := sig,
            h := s.h.(served := [Service(req, Answer(0, 0), 0)], raised := [sig]));
    run := Extend(run, s);
    s := s.(status := CH_COMPLETE, kernel := KIdle);
    run := Extend(run, s);
    run := TakeAnswer(run);
  }

  lemma TakeAnswer(was: seq<State>) returns (run: seq<State>)
    requires Run(was)
    requires var s, req := was[|was| - 1], Request(1, [0, 0, 0, 0, 0, 0]);
             && s.status == CH_COMPLETE && s.kernel == KIdle && s.sp == 0 && s.ret == 0 && s.err == 0
             && s.stack == Cons(Sys(req, 0, Waiting, 0, false), Cons(Program, Nil))
    ensures Run(run)
    ensures var s, req := was[|was| - 1], Request(1, [0, 0, 0, 0, 0, 0]);
            run[|run| - 1] == s.(status := CH_IDLE,
              stack := Cons(Deliver(Checking, 0, false),
                            Cons(Sys(req, 0, Delivering(Answer(0, 0)), 0, false), Cons(Program, Nil))))
  {
    var s, req, below := was[|was| - 1], Request(1, [0, 0, 0, 0, 0, 0]), Cons(Program, Nil);
    s := s.(stack := Cons(Sys(req, 0, ReadRet, 0, false), below));
    run := Extend(was, s);
    s := s.(stack := Cons(Sys(req, 0, ReadErr(0), 0, false), below));
    run := Extend(run, s);
    s := s.(stack := Cons(Sys(req, 0, Resetting(Answer(0, 0)), 0, false), below));
    run := Extend(run, s);
    s := s.(status := CH_IDLE, stack := Cons(Sys(req, 0, Delivering(Answer(0, 0)), 0, false), below));
    run := Extend(run, s);
    s := s.(stack := Cons(Deliver(Checking, 0, false), s.stack));
    run := Extend(run, s);
  }

  /** A handler on an alternate stack, called from a stack pointer of 0, returns and
      leaves it at the alternate stack. */
  lemma StackPointerLost() returns (run: seq<State>)
    ensures Run(run) && run[|run| - 1].stack.Cons? && run[|run| - 1].stack.top.Deliver?
    ensures run[|run| - 1].stack.top.dpc.CallSigreturn? && run[|run| - 1].stack.top.sp == 0
    ensures run[|run| - 1].sp == 12288
  {
    var empty, sig := Sig(0, 0, 0, [], 0, 0, 0), Sig(10, 1, 0, [], 0, 4096, 8192);
    run := RaiseFromZero(empty, sig);
    var s := run[|run| - 1];
    var below := s.stack.rest;
    s := s.(stack := Cons(Deliver(Reading(10), 0, false), below));
    run := Extend(run, s);
    s := s.(stack := Cons(Deliver(Clearing(sig), 0, false), below));
    run := Extend(run, s);
    s := s.(sig := sig.(signum := 0), stack := Cons(Deliver(Switching(sig), 0, false), below));
    run := Extend(run, s);
    s := s.(sp := 12288, stack := Cons(Deliver(Invoking(sig, 0), 0, true), below));
    run := Extend(run, s);
    run := HandleAndReturn(run, sig, below);
  }

  lemma HandleAndReturn(was: seq<State>, sig: Sig, below: Stack) returns (run: seq<State>)
    requires Run(was) && was[|was| - 1].stack == Cons(Deliver(Invoking(sig, 0), 0, true), below)
    ensures Run(run)
    ensures run[|run| - 1].stack == Cons(Deliver(CallSigreturn(sig, |was[|was| - 1].h.issued|), 0, true), below)
    ensures run[|run| - 1].sp == was[|was| - 1].sp
  {
    var s := was[|was| - 1];
    s := s.(stack := Cons(Handler(s.sp), Cons(Deliver(Handling(sig, 0), 0, true), below)),
            h := s.h.(handled := s.h.handled + [Invoke(sig, s.sig.info)]));
    run := Extend(was, s);
    s := s.(stack := Cons(Deliver(Restoring(sig, 0), 0, true), below));
    run := Extend(run, s);
    s := s.(stack := Cons(Deliver(CallSigreturn(sig, |s.h.issued|), 0, true), below));
    run := Extend(run, s);
  }
}
