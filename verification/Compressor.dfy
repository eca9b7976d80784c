/** The pump loop of Compressor::compress and Compressor::decompress (engine/Compressor.cpp:26-100) around an
    abstract codec. */
module Compressors {
  import opened Bytes

  /** One direction of a codec, a machine over hidden states S: write is handed all the input that is left and
      tells how many bytes of it it took, read flushes and hands over the output it has; negative is an error. */
  datatype Codec<!S(!new)> = Codec(write: (S, seq<byte>) -> (S, int), read: S -> (S, int, seq<byte>))
  {
    /** A write takes at most what it was handed. */
    ghost predicate Proper() {
      forall s, x :: write(s, x).1 <= |x|
    }
  }

  /** The loop between two rounds: the codec's state, what the codec was handed and how much of it it took, the
      total taken, the last results of write and read, what was read, and whether the loop has ended. */
  datatype Pump<S> = Pump(state: S, offered: seq<seq<byte>>, took: seq<nat>, ret: nat, wr: int, rd: int,
                          output: seq<byte>, done: bool)

  function Start<S>(s: S): Pump<S> {
    Pump(s, [], [], 0, 0, 0, [], false)
  }

  function Positive(n: int): nat {
    if n > 0 then n else 0
  }

  ghost function Round<S(!new)>(c: Codec<S>, data: seq<byte>, p: Pump<S>): (q: Pump<S>)
    requires c.Proper() && p.ret <= |data|
    ensures p.ret <= q.ret <= |data|
  {
    if p.done then p
    else
      var rest := data[p.ret..];
      var (s, wr) := if rest == [] then (p.state, 0) else c.write(p.state, rest);
      var (s', rd, out) := c.read(s);
      var ret := p.ret + Positive(wr);
      Pump(s', if rest == [] then p.offered else p.offered + [rest],
           if rest == [] then p.took else p.took + [Positive(wr)],
           ret, wr, rd, p.output + out, !(rd >= 0 && wr >= 0 && ret < |data|))
  }

  /** The loop after n rounds. */
  ghost function After<S(!new)>(c: Codec<S>, data: seq<byte>, s: S, n: nat): (p: Pump<S>)
    requires c.Proper()
    ensures p.ret <= |data|
    decreases n
  {
    if n == 0 then Start(s) else Round(c, data, After(c, data, s, n - 1))
  }

  /** What the call returns. */
  function Result<S>(p: Pump<S>): int {
    if p.ret == 0 then p.wr else p.ret
  }

  function Sum(s: seq<nat>): nat
    decreases |s|
  {
    if s == [] then 0 else Sum(s[..|s| - 1]) + s[|s| - 1]
  }

  /** Each write was handed exactly what the writes before it had left, and took a part of it. */
  ghost predicate Consecutive<S>(data: seq<byte>, p: Pump<S>) {
    && |p.offered| == |p.took| && Sum(p.took) == p.ret <= |data|
    && forall i {:trigger p.offered[i]} :: 0 <= i < |p.offered| ==>
         Sum(p.took[..i]) <= |data| && p.offered[i] == data[Sum(p.took[..i])..] != [] && p.took[i] <= |p.offered[i]|
  }

  /** The bytes the codec took, write by write. */
  function Taken(offered: seq<seq<byte>>, took: seq<nat>): seq<byte>
    requires |offered| == |took| && forall i :: 0 <= i < |took| ==> took[i] <= |offered[i]|
    decreases |took|
  {
    var n := |took|;
    if n == 0 then [] else Taken(offered[..n - 1], took[..n - 1]) + offered[n - 1][..took[n - 1]]
  }

  ghost predicate TookInOrder<S>(data: seq<byte>, p: Pump<S>) {
    Consecutive(data, p) && Taken(p.offered, p.took) == data[..p.ret]
  }

  lemma TakeMore<S>(data: seq<byte>, p: Pump<S>, t: nat, q: Pump<S>)
    requires TookInOrder(data, p) && p.ret < |data| && p.ret + t <= |data|
    requires q.offered == p.offered + [data[p.ret..]] && q.took == p.took + [t] && q.ret == p.ret + t
    ensures TookInOrder(data, q)
  {
    TakeMoreInOrder(data, p, t, q);
    var k := |p.took|;
    assert q.offered[..k] == p.offered && q.took[..k] == p.took;
    assert data[..p.ret] + data[p.ret..][..t] == data[..q.ret];
  }

  lemma TakeMoreInOrder<S>(data: seq<byte>, p: Pump<S>, t: nat, q: Pump<S>)
    requires Consecutive(data, p) && p.ret < |data| && p.ret + t <= |data|
    requires q.offered == p.offered + [data[p.ret..]] && q.took == p.took + [t] && q.ret == p.ret + t
    ensures Consecutive(data, q)
  {
    var k := |p.took|;
    assert q.took[..k] == p.took;
    forall i | 0 <= i < |q.offered|
      ensures Sum(q.took[..i]) <= |data|
      ensures q.offered[i] == data[Sum(q.took[..i])..] != [] && q.took[i] <= |q.offered[i]|
    {
      if i < k {
        assert q.took[..i] == p.took[..i] && q.offered[i] == p.offered[i];
      }
    }
  }

  /** No gap and no repeat: at any moment the pieces taken, put together, are the front of the input. */
  lemma {:induction false} NoGapNoRepeat<S(!new)>(c: Codec<S>, data: seq<byte>, s: S, n: nat)
    requires c.Proper()
    ensures TookInOrder(data, After(c, data, s, n))
    decreases n
  {
    if n > 0 {
      var p, q := After(c, data, s, n - 1), After(c, data, s, n);
      NoGapNoRepeat(c, data, s, n - 1);
      if !p.done && data[p.ret..] != [] {
        TakeMore(data, p, Positive(q.wr), q);
      }
    }
  }

  /** What the returned number says about a call that has ended. A failure shows as a negative number only when it
      is a write that failed before anything was taken; a failed read never shows once the input was taken in full. */
  lemma {:induction false} ResultMeans<S(!new)>(c: Codec<S>, data: seq<byte>, s: S, n: nat)
    requires c.Proper() && After(c, data, s, n).done
    ensures var p := After(c, data, s, n);
            && (Result(p) > 0 ==> Result(p) == p.ret)
            && (p.ret < |data| <==> data != [] && Result(p) < |data|)
            && (p.ret < |data| ==> p.wr < 0 || p.rd < 0)
            && (Result(p) < 0 <==> p.ret == 0 && p.wr < 0)
            && (Result(p) == 0 <==> data == [] || (p.ret == 0 && p.wr == 0 && p.rd < 0))
            && (Result(p) == |data| <==> p.ret == |data|)
    decreases n
  {
    if After(c, data, s, n - 1).done {
      ResultMeans(c, data, s, n - 1);
    } else if data == [] {
      EmptyTakesOneRound(c, s, n);
    }
  }

  lemma {:induction false} EmptyTakesOneRound<S(!new)>(c: Codec<S>, s: S, n: nat)
    requires c.Proper() && n > 0
    ensures var p := After(c, [], s, n); p.done && p.wr == 0 && p == After(c, [], s, 1)
    decreases n
  {
    if n > 1 {
      EmptyTakesOneRound(c, s, n - 1);
    }
  }

  lemma {:induction false} DoneStays<S(!new)>(c: Codec<S>, data: seq<byte>, s: S, k: nat, n: nat)
    requires c.Proper() && k <= n && After(c, data, s, k).done
    ensures After(c, data, s, n) == After(c, data, s, k)
    decreases n
  {
    if k < n {
      DoneStays(c, data, s, k, n - 1);
    }
  }

  lemma {:induction false} RetGrows<S(!new)>(c: Codec<S>, data: seq<byte>, s: S, k: nat, n: nat)
    requires c.Proper() && k <= n
    ensures After(c, data, s, k).ret <= After(c, data, s, n).ret
    decreases n
  {
    if k < n {
      RetGrows(c, data, s, k, n - 1);
    }
  }

  /** After a failed write or read the codec is not called again. */
  lemma NothingAfterFailure<S(!new)>(c: Codec<S>, data: seq<byte>, s: S, k: nat, n: nat)
    requires c.Proper() && 0 < k <= n
    requires var p := After(c, data, s, k); p.wr < 0 || p.rd < 0
    ensures After(c, data, s, n) == After(c, data, s, k)
    decreases k
  {
    if After(c, data, s, k - 1).done {
      if k == 1 {
        assert false;
      }
      DoneStays(c, data, s, k - 1, k);
    }
    DoneStays(c, data, s, k, n);
  }

  // ---------- termination

  /** The codec's state after it was n times handed the same input and then read. */
  ghost function Spin<S(!new)>(c: Codec<S>, x: seq<byte>, s: S, n: nat): S
    decreases n
  {
    if n == 0 then s else c.read(c.write(Spin(c, x, s, n - 1), x).0).0
  }

  /** The codec takes nothing of the input, and no failure tells. */
  ghost predicate Idle<S(!new)>(c: Codec<S>, x: seq<byte>, s: S) {
    var (t, wr) := c.write(s, x);
    wr == 0 && c.read(t).1 >= 0
  }

  /** From state s on the codec accepts 0 bytes of x forever. */
  ghost predicate Stalls<S(!new)>(c: Codec<S>, x: seq<byte>, s: S) {
    x != [] && forall n: nat :: Idle(c, x, Spin(c, x, s, n))
  }

  ghost predicate Ends<S(!new)>(c: Codec<S>, data: seq<byte>, s: S)
    requires c.Proper()
  {
    exists n: nat :: After(c, data, s, n).done
  }

  /** After k rounds the codec is left with a state and a rest of the input that it stalls on. */
  ghost predicate StallsAt<S(!new)>(c: Codec<S>, data: seq<byte>, s: S, k: nat)
    requires c.Proper()
  {
    var p := After(c, data, s, k);
    !p.done && Stalls(c, data[p.ret..], p.state)
  }

  ghost predicate Sticks<S(!new)>(c: Codec<S>, data: seq<byte>, s: S)
    requires c.Proper()
  {
    exists k: nat :: StallsAt(c, data, s, k)
  }

  /** While the codec stalls, the rounds of the loop are that iteration of the codec. */
  lemma {:induction false} LoopSpins<S(!new)>(c: Codec<S>, data: seq<byte>, s: S, k: nat, n: nat)
    requires c.Proper() && StallsAt(c, data, s, k)
    ensures var p, q := After(c, data, s, k), After(c, data, s, k + n);
            !q.done && q.ret == p.ret && q.state == Spin(c, data[p.ret..], p.state, n)
    decreases n
  {
    if n > 0 {
      var p := After(c, data, s, k);
      LoopSpins(c, data, s, k, n - 1);
      assert Idle(c, data[p.ret..], Spin(c, data[p.ret..], p.state, n - 1));
    }
  }

  /** From round k on nothing more is taken and the loop does not end. */
  ghost predicate StuckFrom<S(!new)>(c: Codec<S>, data: seq<byte>, s: S, k: nat)
    requires c.Proper()
  {
    forall j: nat :: k <= j ==> var p := After(c, data, s, j); !p.done && p.ret == After(c, data, s, k).ret
  }

  /** A loop that is stuck iterates the codec on the same rest. */
  lemma {:induction false} StuckSpins<S(!new)>(c: Codec<S>, data: seq<byte>, s: S, k: nat, n: nat)
    requires c.Proper() && StuckFrom(c, data, s, k)
    ensures var p, q := After(c, data, s, k), After(c, data, s, k + n);
            && data[p.ret..] != [] && q.state == Spin(c, data[p.ret..], p.state, n)
            && Idle(c, data[p.ret..], q.state)
    decreases n
  {
    var p, q, next := After(c, data, s, k), After(c, data, s, k + n), After(c, data, s, k + n + 1);
    assert !q.done && q.ret == p.ret && !next.done && next.ret == p.ret;
    if n > 0 {
      StuckSpins(c, data, s, k, n - 1);
    }
  }

  lemma StuckStalls<S(!new)>(c: Codec<S>, data: seq<byte>, s: S, k: nat)
    requires c.Proper() && StuckFrom(c, data, s, k)
    ensures StallsAt(c, data, s, k)
  {
    var p := After(c, data, s, k);
    StuckSpins(c, data, s, k, 0);
    forall n: nat ensures Idle(c, data[p.ret..], Spin(c, data[p.ret..], p.state, n)) {
      StuckSpins(c, data, s, k, n);
    }
  }

  lemma {:induction false} EndsOrSticks<S(!new)>(c: Codec<S>, data: seq<byte>, s: S, k: nat) returns (stuck: nat)
    requires c.Proper() && forall n: nat :: !After(c, data, s, n).done
    ensures StuckFrom(c, data, s, stuck)
    decreases |data| - After(c, data, s, k).ret
  {
    if StuckFrom(c, data, s, k) {
      return k;
    }
    var j: nat :| k <= j && After(c, data, s, j).ret != After(c, data, s, k).ret;
    RetGrows(c, data, s, k, j);
    stuck := EndsOrSticks(c, data, s, j);
  }

  /** A call ends unless, and only unless, it leads the codec to a state from which it accepts 0 bytes of the rest
      forever. */
  lemma EndsIff<S(!new)>(c: Codec<S>, data: seq<byte>, s: S)
    requires c.Proper()
    ensures Ends(c, data, s) <==> !Sticks(c, data, s)
  {
    if Ends(c, data, s) && Sticks(c, data, s) {
      var n: nat :| After(c, data, s, n).done;
      var k: nat :| StallsAt(c, data, s, k);
      LoopSpins(c, data, s, k, n);
      DoneStays(c, data, s, n, k + n);
      assert false;
    }
    if !Ends(c, data, s) {
      var k := EndsOrSticks(c, data, s, 0);
      StuckStalls(c, data, s, k);
    }
  }

  ghost predicate NeverStalls<S(!new)>(c: Codec<S>) {
    forall x, s :: !Stalls(c, x, s)
  }

  ghost predicate AlwaysEnds<S(!new)>(c: Codec<S>)
    requires c.Proper()
  {
    forall data, s :: Ends(c, data, s)
  }

  /** A codec makes every call end, whatever the input and the state, exactly when it never accepts 0 bytes of any
      input forever. */
  lemma AlwaysEndsIff<S(!new)>(c: Codec<S>)
    requires c.Proper()
    ensures AlwaysEnds(c) <==> NeverStalls(c)
  {
    if NeverStalls(c) {
      forall data, s ensures Ends(c, data, s) {
        EndsIff(c, data, s);
      }
    } else {
      var x, s :| Stalls(c, x, s);
      assert x[0..] == x && StallsAt(c, x, s, 0);
      EndsIff(c, x, s);
    }
  }

  lemma {:induction false} DoneIsUnique<S(!new)>(c: Codec<S>, data: seq<byte>, s: S, n: nat)
    requires c.Proper() && After(c, data, s, n).done
    ensures forall m: nat :: After(c, data, s, m).done ==> After(c, data, s, m) == After(c, data, s, n)
  {
    forall m: nat | After(c, data, s, m).done
      ensures After(c, data, s, m) == After(c, data, s, n)
    {
      if m <= n {
        DoneStays(c, data, s, m, n);
      } else {
        DoneStays(c, data, s, n, m);
      }
    }
  }

  /** The input of a call: none for a null buffer. */
  function Input(buf: Option<seq<byte>>): seq<byte> {
    if buf.Some? then buf.value else []
  }

  /** One round as seen from outside: the codec's state before it, the input left, what write returned and the state
      it led to, what read returned, and the destination before it. */
  datatype Turn<S> = Turn(state: S, rest: seq<byte>, wr: int, mid: S, rd: int, piece: seq<byte>, next: S,
                          dest: seq<byte>)

  ghost predicate IsTurn<S(!new)>(c: Codec<S>, t: Turn<S>) {
    && (if t.rest == [] then t.mid == t.state && t.wr == 0 else c.write(t.state, t.rest) == (t.mid, t.wr))
    && c.read(t.mid) == (t.next, t.rd, t.piece) && t.wr <= |t.rest|
  }

  /** After turn t the loop goes on from the given state, input left and destination. */
  predicate Follows<S(==)>(t: Turn<S>, state: S, rest: seq<byte>, dest: seq<byte>)
  {
    && state == t.next && dest == t.dest + t.piece && t.wr <= |t.rest|
    && rest == t.rest[if t.wr > 0 then t.wr else 0..] != [] && t.wr >= 0 && t.rd >= 0
  }

  ghost predicate Chained<S>(turns: seq<Turn<S>>) {
    forall j, k :: 0 <= j < k < |turns| && k == j + 1 ==>
      Follows(turns[j], turns[k].state, turns[k].rest, turns[k].dest)
  }

  /** The rounds so far. */
  ghost predicate Traced<S(!new)>(c: Codec<S>, turns: seq<Turn<S>>) {
    (forall t | t in turns :: IsTurn(c, t)) && Chained(turns)
  }

  lemma TraceMore<S(!new)>(c: Codec<S>, turns: seq<Turn<S>>, turn: Turn<S>)
    requires Traced(c, turns) && IsTurn(c, turn)
    requires turns != [] ==> Follows(turns[|turns| - 1], turn.state, turn.rest, turn.dest)
    ensures Traced(c, turns + [turn])
  {
  }

  /** compress and decompress, which are the same loop around the two directions of the codec. The call consists of
      rounds: the codec is written what is left, if anything, and read, and what was read is appended, until something
      fails or nothing is left. */
  method Compress<S(!new)>(c: Codec<S>, start: S, buf: Option<seq<byte>>, dest: seq<byte>)
    returns (ret: int, s: S, dest': seq<byte>, ghost turns: seq<Turn<S>>)
    requires c.Proper()
    requires !Sticks(c, Input(buf), start)
    ensures forall n: nat :: After(c, Input(buf), start, n).done ==>
              var p := After(c, Input(buf), start, n); ret == Result(p) && s == p.state && dest' == dest + p.output
    ensures turns != [] && turns[0].state == start && turns[0].dest == dest
    ensures turns[0].rest == if buf.Some? then buf.value else []
    ensures forall t | t in turns ::
              && (if t.rest == [] then t.mid == t.state && t.wr == 0 else c.write(t.state, t.rest) == (t.mid, t.wr))
              && c.read(t.mid) == (t.next, t.rd, t.piece) && t.wr <= |t.rest|
    ensures forall j, k :: 0 <= j < k < |turns| && k == j + 1 ==>
              && turns[k].state == turns[j].next && turns[k].dest == turns[j].dest + turns[j].piece
              && turns[k].rest == turns[j].rest[if turns[j].wr > 0 then turns[j].wr else 0..] != []
              && turns[j].wr >= 0 && turns[j].rd >= 0
    ensures var t := turns[|turns| - 1];
            var left := t.rest[if t.wr > 0 then t.wr else 0..];
            && dest' == t.dest + t.piece && s == t.next && (t.wr < 0 || t.rd < 0 || left == [])
            && ret == if |left| < |turns[0].rest| then |turns[0].rest| - |left| else t.wr
  {
    ghost var n;
    ret, s, dest', turns, n := Loop(c, start, Input(buf), dest);
    DoneIsUnique(c, Input(buf), start, n);
    forall j, k | 0 <= j < k < |turns| && k == j + 1
      ensures turns[k].state == turns[j].next && turns[k].dest == turns[j].dest + turns[j].piece
      ensures turns[k].rest == turns[j].rest[if turns[j].wr > 0 then turns[j].wr else 0..] != []
      ensures turns[j].wr >= 0 && turns[j].rd >= 0
    {
      assert Follows(turns[j], turns[k].state, turns[k].rest, turns[k].dest);
    }
  }

  /** The last round: what it leaves, and what is returned after it. */
  predicate Closes<S(==)>(t: Turn<S>, data: seq<byte>, ret: int, s: S, dest: seq<byte>)
  {
    && s == t.next && dest == t.dest + t.piece && t.wr <= |t.rest|
    && var left := t.rest[if t.wr > 0 then t.wr else 0..];
       (t.wr < 0 || t.rd < 0 || left == []) && ret == if |left| < |data| then |data| - |left| else t.wr
  }

  /** The loop, on input that is there. */
  method Loop<S(!new)>(c: Codec<S>, start: S, data: seq<byte>, dest: seq<byte>)
    returns (ret: int, s: S, dest': seq<byte>, ghost turns: seq<Turn<S>>, ghost n: nat)
    requires c.Proper() && !Sticks(c, data, start)
    ensures Ended(c, data, start, dest, n, ret, s, dest', turns)
  {
    var len := |data|;
    EndsIff(c, data, start);
    n :| After(c, data, start, n).done;
    ret, s, dest', turns := 0, start, dest, [];
    ghost var k: nat := 0;
    assert dest + [] == dest && data[0..] == data;
    while true
      invariant k <= n && len == |data| - ret && Going(c, data, start, dest, k, ret, s, dest', turns)
      decreases n - k
    {
      if k == n {
        assert false;
      }
      var wr, rd;
      s, ret, len, wr, rd, dest', turns := OneRound(c, data, s, ret, len, dest', start, dest, k, turns);
      k := k + 1;
      if rd >= 0 && wr >= 0 && len != 0 {
        if k > n {
          DoneStays(c, data, start, n, k);
        }
        continue;
      }
      DoneStays(c, data, start, k, n);
      if ret == 0 {
        ret := wr;
      }
      break;
    }
  }

  /** Before round k: the loop stands where the reference stands, and the rounds so far lead there. */
  ghost predicate Going<S(!new)>(c: Codec<S>, data: seq<byte>, start: S, dest: seq<byte>, k: nat, ret: int, s: S,
                                 dest': seq<byte>, turns: seq<Turn<S>>)
    requires c.Proper()
  {
    && !After(c, data, start, k).done && Reached(After(c, data, start, k), data, ret, s, dest, dest')
    && Traced(c, turns)
    && if turns == [] then s == start && ret == 0 && dest' == dest
       else Starts(turns[0], start, data, dest) && Follows(turns[|turns| - 1], s, data[ret..], dest')
  }

  ghost predicate IsResult<S>(p: Pump<S>, ret: int, s: S, dest: seq<byte>, dest': seq<byte>) {
    p.done && ret == Result(p) && s == p.state && dest' == dest + p.output
  }

  /** The call has ended after n rounds. */
  ghost predicate Ended<S(!new)>(c: Codec<S>, data: seq<byte>, start: S, dest: seq<byte>, n: nat, ret: int, s: S,
                                 dest': seq<byte>, turns: seq<Turn<S>>)
    requires c.Proper()
  {
    && IsResult(After(c, data, start, n), ret, s, dest, dest')
    && turns != [] && Traced(c, turns) && Starts(turns[0], start, data, dest)
    && Closes(turns[|turns| - 1], data, ret, s, dest')
  }

  /** One more round leads on, or ends the call. */
  lemma RoundMore<S(!new)>(c: Codec<S>, data: seq<byte>, start: S, dest: seq<byte>, k: nat, ret: nat, s: S,
                           held: seq<byte>, turns: seq<Turn<S>>, turn: Turn<S>)
    requires c.Proper() && Going(c, data, start, dest, k, ret, s, held, turns)
    requires IsTurn(c, turn) && Starts(turn, s, data[ret..], held)
    ensures var ret', more := ret + Positive(turn.wr), turns + [turn];
            if turn.rd >= 0 && turn.wr >= 0 && ret' < |data| then
              Going(c, data, start, dest, k + 1, ret', turn.next, held + turn.piece, more)
            else
              Ended(c, data, start, dest, k + 1, if ret' == 0 then turn.wr else ret', turn.next, held + turn.piece,
                    more)
  {
    if turns == [] {
      assert data[0..] == data;
    }
    RoundIsTurn(c, data, After(c, data, start, k), turn, dest, held);
    TraceMore(c, turns, turn);
    TurnLeaves(turn, data, ret);
  }

  lemma TurnLeaves<S>(turn: Turn<S>, data: seq<byte>, ret: nat)
    requires ret <= |data| && turn.rest == data[ret..] && turn.wr <= |turn.rest|
    ensures var ret', left := ret + Positive(turn.wr), turn.rest[if turn.wr > 0 then turn.wr else 0..];
            ret' <= |data| && left == data[ret'..] && (left == [] <==> ret' == |data|) && |left| == |data| - ret'
  {
  }

  /** The loop stands where the reference stands. */
  ghost predicate Reached<S>(p: Pump<S>, data: seq<byte>, ret: int, s: S, dest: seq<byte>, dest': seq<byte>) {
    p.ret == ret <= |data| && p.state == s && dest' == dest + p.output
  }

  ghost predicate Starts<S>(t: Turn<S>, start: S, data: seq<byte>, dest: seq<byte>) {
    t.state == start && t.rest == data && t.dest == dest
  }

  /** The calls of one round, numbered k. */
  method OneRound<S(!new)>(c: Codec<S>, data: seq<byte>, s: S, ret: nat, len: nat, held: seq<byte>,
                           ghost start: S, ghost dest: seq<byte>, ghost k: nat, ghost turns: seq<Turn<S>>)
    returns (s': S, ret': nat, len': nat, wr: int, rd: int, held': seq<byte>, ghost turns': seq<Turn<S>>)
    requires c.Proper() && Going(c, data, start, dest, k, ret, s, held, turns) && len == |data| - ret
    ensures ret' == ret + Positive(wr) <= |data| && len' == |data| - ret'
    ensures if rd >= 0 && wr >= 0 && len' != 0 then Going(c, data, start, dest, k + 1, ret', s', held', turns')
            else Ended(c, data, start, dest, k + 1, if ret' == 0 then wr else ret', s', held', turns')
  {
    s', ret', len', wr, rd := s, ret, len, 0, 0;
    if len != 0 {
      var t := c.write(s, data[ret..]);
      s', wr := t.0, t.1;
      if wr > 0 {
        ret' := ret + wr;
        len' := len - wr;
      }
    }
    ghost var mid := s';
    var t := c.read(s');
    s', rd := t.0, t.1;
    held' := held + t.2;
    ghost var turn := Turn(s, data[ret..], wr, mid, rd, t.2, s', held);
    turns' := turns + [turn];
    RoundMore(c, data, start, dest, k, ret, s, held, turns, turn);
  }

  lemma RoundIsTurn<S(!new)>(c: Codec<S>, data: seq<byte>, p: Pump<S>, turn: Turn<S>, dest: seq<byte>, held: seq<byte>)
    requires c.Proper() && p.ret <= |data| && !p.done && held == dest + p.output
    requires IsTurn(c, turn) && Starts(turn, p.state, data[p.ret..], held)
    ensures var q := Round(c, data, p);
            && Reached(q, data, p.ret + Positive(turn.wr), turn.next, dest, held + turn.piece)
            && q.wr == turn.wr && q.rd == turn.rd && (q.done <==> turn.rd < 0 || turn.wr < 0 || q.ret == |data|)
  {
    var q := Round(c, data, p);
    assert q.state == turn.next && q.wr == turn.wr && q.rd == turn.rd && q.output == p.output + turn.piece;
    Joined(dest, p.output, turn.piece);
  }

  lemma Joined(a: seq<byte>, b: seq<byte>, c: seq<byte>)
    ensures (a + b) + c == a + (b + c)
  {
  }
}
