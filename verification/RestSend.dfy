/** Sending a report to a client over a socket that may accept any part of what it is given. */
module RestSend {
  import opened Wrappers

  /**
   A socket: what it has accepted, and what the kernel will answer to the calls to come. A negative answer is
   an error, another one is how many bytes are accepted; once there are no more answers every call fails.
   */
  class Socket {
    var wire: seq<char>
    var answers: seq<int>

    constructor (answers: seq<int>)
      ensures wire == [] && this.answers == answers
    {
      wire := [];
      this.answers := answers;
    }

    method Answer() returns (n: int)
      modifies this`answers
      ensures n >= -1
      ensures if old(answers) == [] then n == -1 && answers == [] else answers == old(answers)[1..]
      ensures old(answers) != [] ==> n == if old(answers)[0] < 0 then -1 else old(answers)[0]
    {
      if answers == [] {
        return -1;
      }
      n := if answers[0] < 0 then -1 else answers[0];
      answers := answers[1..];
    }

    /** `send`. */
    method Send(data: seq<char>) returns (n: int)
      modifies this
      ensures -1 <= n <= |data|
      ensures wire == old(wire) + data[..if n < 0 then 0 else n]
      ensures if old(answers) == [] then n == -1 && answers == [] else answers == old(answers)[1..]
      ensures n < 0 <==> old(answers) == [] || old(answers)[0] < 0
      ensures n > 0 <==> old(answers) != [] && old(answers)[0] > 0 && data != []
      ensures (if n < 0 then 0 else n) == if old(answers) == [] then 0 else Taken(old(answers)[0], |data|)
    {
      n := Answer();
      if n > |data| {
        n := |data|;
      }
      wire := wire + data[..if n < 0 then 0 else n];
    }
  }

  /** Every call makes progress. */
  predicate Progressing(answers: seq<int>) {
    forall i | 0 <= i < |answers| :: answers[i] > 0
  }

  /** What the payload calls read from memory: the buffer, or one byte more after a step back. */
  function Payload(before: char, buffer: seq<char>, steppedBack: bool): seq<char> {
    if steppedBack then [before] + buffer else buffer
  }

  /**
   Pairs of answers, to `setsockopt` and to the `send` after it, let a byte through: the first pair in which either
   fails or the send accepts something is one in which the send accepts something.
   */
  predicate LetsThrough(answers: seq<int>) {
    && |answers| >= 2
    && answers[0] >= 0
    && (answers[1] > 0 || (answers[1] == 0 && LetsThrough(answers[2..])))
  }

  /** How many of `n` bytes a call accepts. */
  function Taken(answer: int, n: nat): (k: nat)
    ensures k <= n
  {
    if answer < 0 then 0 else if answer < n then answer else n
  }

  /**
   How many of `n` bytes pairs of answers, to `setsockopt` and to the `send` after it, let through: all that is
   accepted until nothing is left or a call fails.
   */
  function Through(answers: seq<int>, n: nat): (k: nat)
    ensures k <= n
  {
    if n == 0 || |answers| < 2 || answers[0] < 0 || answers[1] < 0 then 0
    else
      var k := if answers[1] < n then answers[1] else n;
      k + Through(answers[2..], n - k)
  }

  /** The first `pairs` pairs of answers are not errors. */
  predicate NoErrors(answers: seq<int>, pairs: nat) {
    |answers| >= 2 * pairs && forall i | 0 <= i < 2 * pairs :: answers[i] >= 0
  }

  /** What the sends of the first `pairs` pairs would accept together. */
  function Offered(answers: seq<int>, pairs: nat): int
    requires NoErrors(answers, pairs)
  {
    if pairs == 0 then 0 else Offered(answers, pairs - 1) + answers[2 * pairs - 1]
  }

  /** All bytes get through if and only if, before any call fails, enough is offered. */
  lemma {:induction false} AllThroughIff(answers: seq<int>, n: nat)
    ensures Through(answers, n) == n
       <==> exists pairs: nat :: pairs <= |answers| && NoErrors(answers, pairs) && Offered(answers, pairs) >= n
    decreases |answers|
  {
    hide NoErrors, Offered;
    if n == 0 {
      NothingOffered(answers);
    } else if |answers| >= 2 && answers[0] >= 0 && answers[1] >= 0 {
      var k := if answers[1] < n then answers[1] else n;
      AllThroughIff(answers[2..], n - k);
      var later := answers[2..];
      if pairs: nat :| pairs <= |later| && NoErrors(later, pairs) && Offered(later, pairs) >= n - k {
        OfferedShift(answers, pairs);
      }
      if pairs: nat :| pairs <= |answers| && NoErrors(answers, pairs) && Offered(answers, pairs) >= n {
        NothingOffered(answers);
        NoErrorsLater(answers, pairs);
        OfferedShift(answers, pairs - 1);
      }
    } else {
      NothingOffered(answers);
      if pairs: nat :| pairs > 0 && NoErrors(answers, pairs) {
        NoErrorsLater(answers, pairs);
      }
    }
  }

  lemma NothingOffered(answers: seq<int>)
    ensures NoErrors(answers, 0) && Offered(answers, 0) == 0
  {
  }

  lemma NoErrorsLater(answers: seq<int>, pairs: nat)
    requires NoErrors(answers, pairs) && pairs > 0
    ensures |answers| >= 2 && answers[0] >= 0 && answers[1] >= 0
    ensures NoErrors(answers[2..], pairs - 1) && pairs - 1 <= |answers[2..]|
  {
  }

  lemma {:induction false} OfferedShift(answers: seq<int>, pairs: nat)
    requires |answers| >= 2 && answers[0] >= 0 && answers[1] >= 0 && NoErrors(answers[2..], pairs)
    ensures NoErrors(answers, pairs + 1)
    ensures Offered(answers, pairs + 1) == answers[1] + Offered(answers[2..], pairs) >= answers[1]
  {
    forall i | 0 <= i < 2 * (pairs + 1) ensures answers[i] >= 0 {
      assert i >= 2 ==> answers[i] == answers[2..][i - 2];
    }
    if pairs > 0 {
      OfferedShift(answers, pairs - 1);
      assert answers[2..][2 * pairs - 1] == answers[2 * pairs + 1];
    }
  }

  lemma ThroughStep(answers: seq<int>, n: nat)
    ensures (if n > 0 && |answers| >= 2 && answers[0] >= 0 && answers[1] >= 0 then
               var k := Taken(answers[1], n);
               Through(answers, n) == k + Through(answers[2..], n - k)
             else Through(answers, n) == 0)
    ensures |answers| >= 2 ==> answers[1..][1..] == answers[2..]
  {
  }

  /** If every call makes progress, twice as many answers as bytes are enough. */
  lemma {:induction false} ThroughIsAll(answers: seq<int>, n: nat)
    ensures Progressing(answers) && |answers| >= 2 * n ==> Through(answers, n) == n
    decreases |answers|
  {
    if Progressing(answers) && |answers| >= 2 * n && n > 0 {
      ThroughIsAll(answers[2..], n - if answers[1] < n then answers[1] else n);
    }
  }

  lemma WireNext<T>(wire: seq<T>, all: seq<T>, n: nat, a: nat, k: nat)
    requires n <= a <= a + k <= |all|
    ensures wire + all[n..a] + all[a..][..k] == wire + all[n..a + k]
  {
    SliceNext(all, n, a, k);
    ConcatAssociative(wire, all[n..a], all[a..][..k]);
  }

  lemma {:induction false} ThroughIsPositive(answers: seq<int>, n: nat)
    requires n > 0
    ensures Through(answers, n) > 0 <==> LetsThrough(answers)
    decreases |answers|
  {
    if |answers| >= 2 && answers[0] >= 0 && answers[1] == 0 {
      ThroughIsPositive(answers[2..], n);
    }
  }

  lemma SliceNext<T>(all: seq<T>, n: nat, a: nat, k: nat)
    requires n <= a <= a + k <= |all|
    ensures all[n..a] + all[a..][..k] == all[n..a + k]
  {
  }

  /**
   The loop of `rest_send_200_with_data`, entered after a first call that accepted `bytesSent` bytes of the
   buffer, or failed with -1.
   */
  method SendRest(socket: Socket, before: char, buffer: seq<char>, bytesSent: int, success: bool,
                  ghost all: seq<char>, ghost n: nat)
    returns (success': bool, accepted: nat, sends: nat)
    requires -1 <= bytesSent <= |buffer| && (bytesSent < 0 ==> !success)
    requires all == Payload(before, buffer, bytesSent < 0) && n == (if bytesSent < 0 then 0 else bytesSent)
    modifies socket
    ensures accepted == n + Through(old(socket.answers), |all| - n)
    ensures socket.wire == old(socket.wire) + all[n..accepted]
    ensures success' <==> success && accepted == |all|
    ensures Progressing(old(socket.answers)) ==> sends <= |buffer| - bytesSent
  {
    hide *;
    PayloadMeans(before, buffer);
    success' := success;
    var memory := [before] + buffer;
    var pointer, length, sent := 1, |buffer|, bytesSent;
    ghost var start := if bytesSent < 0 then 0 else 1;
    assert memory[start..] == all && |memory| == |buffer| + 1;
    assert all[n..n] == [];
    sends := 0;
    accepted := if bytesSent < 0 then 0 else bytesSent;
    while length - sent > 0
      invariant -1 <= sent <= length && 0 <= pointer && pointer + length == |memory|
      invariant success' == success && n <= accepted == pointer + sent - start && start <= pointer + sent
      invariant socket.wire == old(socket.wire) + all[n..accepted]
      invariant accepted + Through(socket.answers, |all| - accepted) == n + Through(old(socket.answers), |all| - n)
      invariant Progressing(old(socket.answers)) ==> Progressing(socket.answers)
      invariant Progressing(old(socket.answers)) ==> sends + (length - sent) <= |buffer| - bytesSent
      decreases |socket.answers|
    {
      ghost var answers, rest := socket.answers, |all| - accepted;
      ThroughStep(answers, rest);
      ProgressingDrop(answers);
      var option := socket.Answer();
      if 0 > option {
        return false, accepted, sends;
      }
      pointer := pointer + sent;
      length := length - sent;
      var data := memory[pointer..pointer + length];
      assert data == all[accepted..] && |data| == rest;
      sent := socket.Send(data);
      sends := sends + 1;
      if 0 > sent {
        return false, accepted, sends;
      }
      assert Through(answers, rest) == sent + Through(socket.answers, rest - sent);
      WireNext(old(socket.wire), all, n, accepted, sent);
      assert socket.wire == old(socket.wire) + all[n..accepted + sent];
      accepted := accepted + sent;
    }
    ThroughStep(socket.answers, |all| - accepted);
  }

  /**
   `rest_send_200_with_data`. On success everything in `buffer` has been accepted once, in order, after what
   was accepted of the header. On failure no byte has been accepted twice or out of order either; but exactly if
   the first call for the payload fails, the loop starts one byte early, at the byte before the buffer, and the
   result is a failure. That byte is accepted exactly if the later answers let a byte through. If every call makes
   progress, the number of calls is bounded by the length, and the payload is delivered. `response` is the fixed
   text of the header.
   */
  method Send200WithData(socket: Socket, response: seq<char>, before: char, buffer: seq<char>)
    returns (success: bool, header: nat, accepted: nat, steppedBack: bool, sends: nat)
    modifies socket
    ensures header <= |response| && accepted <= |Payload(before, buffer, steppedBack)|
    ensures socket.wire == old(socket.wire) + response[..header] + Payload(before, buffer, steppedBack)[..accepted]
    ensures success ==> !steppedBack && accepted == |buffer|
    ensures header == if |old(socket.answers)| == 0 then 0 else Taken(old(socket.answers)[0], |response|)
    ensures steppedBack <==> |old(socket.answers)| < 2 || old(socket.answers)[1] < 0
    ensures !steppedBack ==>
              var k := Taken(old(socket.answers)[1], |buffer|);
              accepted == k + Through(old(socket.answers)[2..], |buffer| - k)
    ensures steppedBack ==>
              accepted == if |old(socket.answers)| < 2 then 0 else Through(old(socket.answers)[2..], |buffer| + 1)
    ensures success <==> !steppedBack && old(socket.answers)[0] >= 0 && accepted == |buffer|
    ensures steppedBack ==> (accepted > 0 <==> |old(socket.answers)| > 2 && LetsThrough(old(socket.answers)[2..]))
    ensures Progressing(old(socket.answers)) ==> sends <= |buffer| + 2
    ensures Progressing(old(socket.answers)) && |old(socket.answers)| >= 2 * |buffer| + 2 ==> success
  {
    hide *;
    AfterTwoAnswers(socket.answers);
    ProgressingDrop(socket.answers);
    var bytesSent := socket.Send(response);
    ProgressingDrop(socket.answers);
    success := bytesSent >= 0;
    header := if bytesSent < 0 then 0 else bytesSent;
    bytesSent := socket.Send(buffer);
    if 0 > bytesSent {
      success := false;
    }
    steppedBack := bytesSent < 0;
    PayloadMeans(before, buffer);
    ghost var n := if bytesSent < 0 then 0 else bytesSent;
    ghost var all, base := Payload(before, buffer, steppedBack), old(socket.wire) + response[..header];
    assert socket.wire == base + all[..n];
    ghost var answers := socket.answers;
    success, accepted, sends := SendRest(socket, before, buffer, bytesSent, success, all, n);
    ThroughIsAll(answers, |buffer| - n);
    ThroughIsPositive(answers, |buffer| + 1);
    sends := sends + 1;
    SliceNext(all, 0, n, accepted - n);
    assert all[n..accepted] == all[n..][..accepted - n];
    ConcatAssociative(base, all[..n], all[n..accepted]);
  }

  lemma ProgressingDrop(answers: seq<int>)
    ensures Progressing(answers) && answers != [] ==> answers[0] > 0 && Progressing(answers[1..])
    ensures Progressing(answers) && |answers| > 1 ==> answers[1] > 0 && Progressing(answers[1..][1..])
  {
  }

  lemma AfterTwoAnswers(answers: seq<int>)
    ensures !LetsThrough([])
    ensures |answers| >= 2 ==> answers[1..][1..] == answers[2..]
    ensures |answers| == 2 ==> answers[2..] == []
  {
  }

  lemma PayloadMeans(before: char, buffer: seq<char>)
    ensures Payload(before, buffer, false) == buffer && Payload(before, buffer, true) == [before] + buffer
    ensures [before] + buffer != []
  {
  }
}
