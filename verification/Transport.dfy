/** The socket layer: retry loops over short transfers, signals, timeouts and a cancel hook. */
module Transport {
  import opened Bytes

  datatype Errno = EINTR | EAGAIN | EWOULDBLOCK | OtherErrno

  predicate IsTimeout(e: Errno) {
    e == EAGAIN || e == EWOULDBLOCK
  }

  /** One answer of the kernel to a transfer call: up to `atMost` octets move (at least one, and
      never more than asked for or available), the stream ends, or the call fails with an errno. */
  datatype Answer = Moves(atMost: nat) | Ends | Fails(errno: Errno)

  /** Every answer moves octets, is an interrupt, or is a timeout. */
  ghost predicate Benign(trace: seq<Answer>) {
    forall i :: 0 <= i < |trace| ==> trace[i].Moves? || (trace[i].Fails? && trace[i].errno != OtherErrno)
  }

  /** The next transfer moves all of `n` octets at once. */
  predicate Prompt(trace: seq<Answer>, n: nat) {
    trace != [] && trace[0].Moves? && trace[0].atMost >= n > 0
  }

  const LOTS: nat := 0x2_0000

  /** Each of the next `k` transfers moves all that is asked for at once. */
  predicate Brisk(trace: seq<Answer>, k: nat): (r: bool)
    ensures r ==> k <= |trace|
  {
    k == 0 || (trace != [] && trace[0].Moves? && trace[0].atMost >= LOTS && Brisk(trace[1..], k - 1))
  }

  lemma {:induction false} BriskSplit(trace: seq<Answer>, a: nat, b: nat)
    requires Brisk(trace, a + b)
    ensures a <= |trace| && Brisk(trace, a) && Brisk(trace[a..], b)
  {
    if a > 0 {
      BriskSplit(trace[1..], a - 1, b);
      assert trace[1..][a - 1..] == trace[a..];
    }
  }

  /** The next transfer times out. */
  predicate Stalls(trace: seq<Answer>) {
    trace != [] && trace[0].Fails? && IsTimeout(trace[0].errno)
  }

  /** `left` is what is left of `s` once some octets have been taken off its front. */
  predicate LeftOf(left: seq<byte>, s: seq<byte>) {
    |left| <= |s| && forall i :: 0 <= i < |left| ==> left[i] == s[|s| - |left| + i]
  }

  function Min(a: nat, b: nat): nat {
    if a < b then a else b
  }

  /** How many octets one answer moves, when `n` are asked for. */
  function MovedBy(a: Answer, n: nat): (k: nat)
    requires a.Moves?
    ensures k <= n
    ensures n > 0 ==> k > 0
  {
    Min(if a.atMost == 0 then 1 else a.atMost, n)
  }

  /** The caller's progress callback, with the counters it is shown. It answers its i-th poll with `answer(i)`.
      `stallCancelled` is the flag the stall hook raises when it is told to stop. */
  class Progress {
    const answer: nat -> bool
    var polls: nat
    var done: nat                 // octets transferred so far
    var lastDone: nat             // what the last poll was shown
    var stallCancelled: bool

    constructor (answer: nat -> bool)
      ensures this.answer == answer && Fresh()
    {
      this.answer := answer;
      polls, done, lastDone := 0, 0, 0;
      stallCancelled := false;
    }

    /** Nothing has been asked yet. */
    ghost predicate Fresh()
      reads this
    {
      polls == 0 && done == 0 && !stallCancelled
    }

    /** Once it has said stop, it keeps saying stop. */
    ghost predicate Latching() {
      forall i: nat, j: nat :: i <= j && !answer(i) ==> !answer(j)
    }

    /** It says stop whenever it is asked. */
    ghost predicate AlwaysStop() {
      forall i: nat :: !answer(i)
    }

    /** Some poll so far was refused. */
    ghost predicate Refused()
      reads this
    {
      exists i: nat :: i < polls && !answer(i)
    }

    method Ask() returns (keepGoing: bool)
      modifies this`polls, this`lastDone
      ensures polls == old(polls) + 1 && lastDone == done
      ensures keepGoing == answer(old(polls))
    {
      keepGoing := answer(polls);
      polls := polls + 1;
      lastDone := done;
    }

    /** The hook installed for stalls: asks, and remembers a refusal. */
    method AskOnStall() returns (keepGoing: bool)
      modifies this`polls, this`lastDone, this`stallCancelled
      ensures polls == old(polls) + 1 && lastDone == done
      ensures keepGoing == answer(old(polls))
      ensures stallCancelled == (old(stallCancelled) || !keepGoing)
    {
      keepGoing := Ask();
      if !keepGoing {
        stallCancelled := true;
      }
    }
  }

  class TcpTransport {
    var open: bool
    var trace: seq<Answer>        // the kernel's answers to come; after them it moves all it can
    var incoming: seq<byte>       // what the peer has sent and is still to be received
    var sent: seq<byte>           // what has been handed to the kernel
    var onStall: Progress?
    // Monitor of the conversation: has a poll been refused, and what happened on the wire after that?
    ghost var refused: bool
    ghost var callsAfter: nat
    ghost var pollsAfter: nat

    constructor (trace: seq<Answer>, incoming: seq<byte>)
      ensures open && this.trace == trace && this.incoming == incoming
      ensures sent == [] && onStall == null && Waiting()
    {
      open := true;
      this.trace := trace;
      this.incoming := incoming;
      sent := [];
      onStall := null;
      refused := false;
      callsAfter, pollsAfter := 0, 0;
    }

    method Close()
      modifies this`open
      ensures !open
    {
      open := false;
    }

    method NextAnswer(n: nat) returns (a: Answer)
      modifies this`trace, this`callsAfter
      ensures callsAfter == old(callsAfter) + if refused then 1 else 0
      ensures old(trace) == [] ==> trace == [] && a == if open then Moves(n) else Fails(OtherErrno)
      ensures old(trace) != [] ==> trace == old(trace)[1..] && a == if open then old(trace)[0] else Fails(OtherErrno)
    {
      callsAfter := callsAfter + if refused then 1 else 0;
      if trace == [] {
        a := Moves(n);
      } else {
        a := trace[0];
        trace := trace[1..];
      }
      if !open {
        a := Fails(OtherErrno);
      }
    }

    /** recv(): -1 with an errno, 0 at the end of the stream, else the number of octets stored. */
    method Recv(buf: array<byte>, off: nat, n: nat) returns (result: int, errno: Errno)
      requires 0 < n && off + n <= buf.Length
      modifies this`trace, this`callsAfter, this`incoming, buf
      ensures callsAfter == old(callsAfter) + if refused then 1 else 0
      ensures -1 <= result <= n
      ensures result >= 0 ==> result <= |old(incoming)| && incoming == old(incoming)[result..]
      ensures forall i :: off <= i < off + result ==> buf[i] == old(incoming)[i - off]
      ensures result < 0 ==> incoming == old(incoming)
      ensures forall i :: 0 <= i < buf.Length && !(off <= i < off + result) ==> buf[i] == old(buf[i])
      ensures |trace| <= |old(trace)|
      ensures open && Prompt(old(trace), n) && n <= |old(incoming)| ==> result == n && trace == old(trace)[1..]
      ensures open && Stalls(old(trace)) ==> result < 0 && errno == old(trace)[0].errno
      ensures result < 0 && errno != OtherErrno ==> |trace| < |old(trace)|
      ensures Benign(old(trace)) ==> Benign(trace)
      ensures Benign(old(trace)) && open ==> result >= 0 || errno != OtherErrno
      ensures Benign(old(trace)) && open && old(incoming) != [] ==> result != 0
    {
      var a := NextAnswer(n);
      errno := OtherErrno;
      match a
      case Ends => result := 0;
      case Fails(e) => result, errno := -1, e;
      case Moves(_) =>
        var k := Min(MovedBy(a, n), |incoming|);
        forall i | 0 <= i < k {
          buf[off + i] := incoming[i];
        }
        incoming := incoming[k..];
        result := k;
    }

    /** send(): -1 with an errno, 0 when closed, else the number of octets accepted. */
    method Send(buf: seq<byte>) returns (result: int, errno: Errno)
      requires buf != []
      modifies this`trace, this`callsAfter, this`sent
      ensures callsAfter == old(callsAfter) + if refused then 1 else 0
      ensures -1 <= result <= |buf|
      ensures sent == old(sent) + if result >= 0 then buf[..result] else []
      ensures |trace| <= |old(trace)|
      ensures open && Prompt(old(trace), |buf|) ==> result == |buf| && trace == old(trace)[1..]
      ensures result < 0 && errno != OtherErrno ==> |trace| < |old(trace)|
      ensures Benign(old(trace)) ==> Benign(trace)
      ensures Benign(old(trace)) && open ==> result > 0 || (result < 0 && errno != OtherErrno)
    {
      var a := NextAnswer(|buf|);
      errno := OtherErrno;
      match a
      case Ends => result := 0;
      case Fails(e) => result, errno := -1, e;
      case Moves(_) =>
        result := MovedBy(a, |buf|);
        sent := sent + buf[..result];
    }

    /** Should a stalled transfer wait some more? Always, when no hook is installed. */
    method KeepWaiting() returns (keepGoing: bool)
      modifies this`refused, this`pollsAfter, onStall
      ensures onStall == null ==> keepGoing && refused == old(refused) && pollsAfter == old(pollsAfter)
      ensures onStall != null ==>
        && onStall.polls == old(onStall.polls) + 1
        && onStall.done == old(onStall.done) && onStall.lastDone == onStall.done
        && keepGoing == onStall.answer(old(onStall.polls))
        && onStall.stallCancelled == (old(onStall.stallCancelled) || !keepGoing)
        && refused == (old(refused) || !keepGoing)
        && pollsAfter == old(pollsAfter) + if old(refused) then 1 else 0
    {
      keepGoing := true;
      if onStall != null {
        keepGoing := onStall.AskOnStall();
        pollsAfter := pollsAfter + if refused then 1 else 0;
        refused := refused || !keepGoing;
      }
    }

    /** Nobody has been refused anything yet. */
    ghost predicate Quiet()
      reads this`refused, this`callsAfter, this`pollsAfter
    {
      !refused && callsAfter == 0 && pollsAfter == 0
    }

    /** No poll of the hook has been refused so far. */
    ghost predicate Waiting()
      reads this`refused, this`callsAfter, this`pollsAfter, this`onStall, onStall
    {
      && Quiet()
      && (onStall != null ==> !onStall.stallCancelled && !onStall.Refused())
    }

    /** The hook refused to wait; since then it was polled at most once more and nothing was sent or received. */
    ghost predicate Stopped()
      reads this`refused, this`callsAfter, this`pollsAfter, this`onStall, onStall
    {
      && refused && callsAfter == 0 && pollsAfter <= 1
      && onStall != null && onStall.stallCancelled && onStall.Refused()
    }

    /** With a latching hook: not told to stop so far. The state in which a transfer may be attempted. */
    ghost predicate Ready()
      reads this`refused, this`callsAfter, this`pollsAfter, this`onStall, onStall
    {
      Latching() ==> Waiting()
    }

    /** With a latching hook: not told to stop, or told so and quiet since. */
    ghost predicate Settled()
      reads this`refused, this`callsAfter, this`pollsAfter, this`onStall, onStall
    {
      Latching() ==> Waiting() || Stopped()
    }

    /** The hook has refused at some point. */
    ghost predicate StallRefused()
      reads this`onStall, onStall
    {
      onStall != null && onStall.stallCancelled
    }

    ghost predicate Latching()
      reads this`onStall
    {
      onStall != null ==> onStall.Latching()
    }

    /** The hook says stop whenever it is asked. */
    ghost predicate Refusing()
      reads this`onStall
    {
      onStall != null && onStall.AlwaysStop()
    }

    /** One receive, repeated after interrupts and waited-out timeouts. A timeout is handed back only when
        the hook has just refused to wait, and never as the end of the stream. */
    method ReadSome(buf: array<byte>, off: nat, n: nat) returns (result: int, errno: Errno)
      requires Ready() && 0 < n && off + n <= buf.Length
      modifies this`trace, this`refused, this`callsAfter, this`pollsAfter, this`incoming, buf, onStall
      ensures -1 <= result <= n
      ensures result >= 0 ==> result <= |old(incoming)| && incoming == old(incoming)[result..]
      ensures forall i :: off <= i < off + result ==> buf[i] == old(incoming)[i - off]
      ensures result < 0 ==> incoming == old(incoming)
      ensures forall i :: 0 <= i < buf.Length && !(off <= i < off + result) ==> buf[i] == old(buf[i])
      ensures result < 0 ==> errno != EINTR
      ensures onStall != null ==> onStall.done == old(onStall.done)
      ensures |trace| <= |old(trace)|
      ensures open && Prompt(old(trace), n) && n <= |old(incoming)| ==> result == n && trace == old(trace)[1..]
      ensures open && Stalls(old(trace)) && old(Refusing()) ==> result < 0 && IsTimeout(errno)
      ensures result < 0 && IsTimeout(errno) ==> |trace| < |old(trace)|
      ensures !(result < 0 && IsTimeout(errno)) ==> Ready()
      ensures result < 0 && IsTimeout(errno) ==> (Latching() ==> Stopped() && pollsAfter == 0)
      ensures result < 0 && IsTimeout(errno) ==> StallRefused() && onStall.polls > 0 && !onStall.answer(onStall.polls - 1)
      ensures Benign(old(trace)) ==> Benign(trace)
      ensures Benign(old(trace)) && open ==> result >= 0 || IsTimeout(errno)
      ensures Benign(old(trace)) && open && old(incoming) != [] ==> result != 0
    {
      while true
        invariant onStall != null ==> onStall.done == old(onStall.done)
        invariant incoming == old(incoming) && |trace| <= |old(trace)|
        invariant forall i :: 0 <= i < buf.Length ==> buf[i] == old(buf[i])
        invariant open && Prompt(old(trace), n) && n <= |incoming| ==> trace == old(trace)
        invariant open && Stalls(old(trace)) && old(Refusing()) ==> trace == old(trace) && Refusing()
        invariant Ready()
        invariant Benign(old(trace)) ==> Benign(trace)
        decreases |trace|
      {
        result, errno := Recv(buf, off, n);
        if result < 0 && errno == EINTR {
          continue;
        }
        if result < 0 && IsTimeout(errno) {
          var keepWaiting := KeepWaiting();
          if keepWaiting {
            continue;
          }
        }
        return;
      }
    }

    /** Receives exactly `n` octets into `buf` at `off`. */
    method ReadExactly(buf: array<byte>, off: nat, n: nat) returns (ok: bool)
      requires Ready() && off + n <= buf.Length
      modifies this`trace, this`refused, this`callsAfter, this`pollsAfter, this`incoming, buf, onStall
      ensures ok ==> n <= |old(incoming)| && incoming == old(incoming)[n..]
      ensures ok ==> buf[off..off + n] == old(incoming)[..n]
      ensures !ok ==> LeftOf(incoming, old(incoming)) && |old(incoming)| < |incoming| + n
      ensures forall i :: 0 <= i < buf.Length && !(off <= i < off + n) ==> buf[i] == old(buf[i])
      ensures onStall != null ==> onStall.done == old(onStall.done)
      ensures |trace| <= |old(trace)|
      ensures Benign(old(trace)) ==> Benign(trace)
      ensures Benign(old(trace)) && open && n <= |old(incoming)| && !ok ==> StallRefused()
      ensures Settled() && (ok ==> Ready())
      ensures open && Prompt(old(trace), n) && n <= |old(incoming)| ==> ok && trace == old(trace)[1..]
      ensures open && Stalls(old(trace)) && old(Refusing()) && n > 0 ==> !ok && StallRefused() && incoming == old(incoming)
    {
      hide Benign;
      var done := 0;
      while done < n
        invariant open && Prompt(old(trace), n) && n <= |old(incoming)| ==>
          if done == 0 then trace == old(trace) else done == n && trace == old(trace)[1..]
        invariant open && Stalls(old(trace)) && old(Refusing()) ==> done == 0 && trace == old(trace) && Refusing()
        invariant 0 <= done <= n && done <= |old(incoming)| && incoming == old(incoming)[done..]
        invariant forall i :: off <= i < off + done ==> buf[i] == old(incoming)[i - off]
        invariant forall i :: 0 <= i < buf.Length && !(off <= i < off + done) ==> buf[i] == old(buf[i])
        invariant onStall != null ==> onStall.done == old(onStall.done)
        invariant |trace| <= |old(trace)|
        invariant Benign(old(trace)) ==> Benign(trace)
        invariant Ready()
        decreases n - done, |trace|
      {
        var result, errno := ReadSome(buf, off + done, n - done);
        if result < 0 {
          if errno == EINTR {
            continue;
          }
          if IsTimeout(errno) {
            var keepWaiting := KeepWaiting();
            if keepWaiting {
              continue;
            }
          }
          return false;
        }
        if result == 0 {
          return false;
        }
        done := done + result;
      }
      return true;
    }

    /** Sends the octets of `buf`, repeating after short sends, interrupts and waited-out timeouts. */
    method WriteAll(buf: seq<byte>) returns (ok: bool)
      requires Ready()
      modifies this`trace, this`refused, this`callsAfter, this`pollsAfter, this`sent, onStall
      ensures ok ==> sent == old(sent) + buf
      ensures old(sent) <= sent <= old(sent) + buf
      ensures onStall != null ==> onStall.done == old(onStall.done)
      ensures |trace| <= |old(trace)|
      ensures Benign(old(trace)) ==> Benign(trace)
      ensures Benign(old(trace)) && open && !ok ==> StallRefused()
      ensures Settled() && (ok ==> Ready())
      ensures !ok ==> |sent| < |old(sent)| + |buf|
      ensures open && Prompt(old(trace), |buf|) ==> ok && trace == old(trace)[1..]
    {
      var done := 0;
      while done < |buf|
        invariant open && Prompt(old(trace), |buf|) ==>
          if done == 0 then trace == old(trace) else done == |buf| && trace == old(trace)[1..]
        invariant 0 <= done <= |buf| && sent == old(sent) + buf[..done]
        invariant onStall != null ==> onStall.done == old(onStall.done)
        invariant |trace| <= |old(trace)|
        invariant Benign(old(trace)) ==> Benign(trace)
        invariant Ready()
        decreases |buf| - done, |trace|
      {
        var result, errno := Send(buf[done..]);
        if result < 0 {
          if errno == EINTR {
            continue;
          }
          if IsTimeout(errno) {
            var keepWaiting := KeepWaiting();
            if keepWaiting {
              continue;
            }
          }
          return false;
        }
        if result == 0 {
          return false;
        }
        done := done + result;
      }
      return true;
    }
  }
}
