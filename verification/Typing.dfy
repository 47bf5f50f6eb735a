/** The typing game itself: the letters live in a linked list through a pool of SIZE + 1 elements,
    and a main loop catches up with the timer (game/src/typing/effect.c, keyboard.c and game.c). */
module Typing {
  import opened Linklist
  import opened Letters
  import opened Words

  const SIZE: nat := 1000
  const FPS: nat := 30
  const CHARACTER_PER_SECOND: nat := 3
  const UPDATE_PER_SECOND: nat := 100

  const LETTER_CODE: seq<int> := [
    30, 48, 46, 32, 18, 33, 34, 35, 23, 36, 37, 38, 50, 49, 24, 25, 16, 19, 31, 20, 22, 47, 17, 45, 21, 44]

  // ----- clocks

  /** How many multiples of d lie in [0, now). */
  function Beats(now: int, d: nat): int
    requires d > 0
  {
    (now + d - 1) / d
  }

  /** The last multiple of d before now. */
  function LastBeat(now: int, d: nat): int
    requires d > 0
  {
    (Beats(now, d) - 1) * d
  }

  predicate Multiple(t: int, d: nat)
    requires d > 0
  {
    t % d == 0
  }

  lemma BeatsStep(now: nat, d: nat)
    requires d > 0
    ensures Beats(now + 1, d) == Beats(now, d) + if Multiple(now, d) then 1 else 0
    ensures Multiple(now, d) ==> Beats(now, d) * d == now
    ensures now > 0 ==> 0 <= LastBeat(now, d) < now
    ensures now > 0 && Multiple(now, d) ==> LastBeat(now, d) == now - d
  {
    var q, r := now / d, now % d;
    assert now == q * d + r;
    assert (q + 1) * d == q * d + d;
    if r == 0 {
      DivModIs(now + d - 1, d, q, d - 1);
      DivModIs(now + d, d, q + 1, 0);
      assert (q - 1) * d == q * d - d;
      assert q == 0 ==> now == 0;
      assert q >= 1 ==> (q - 1) * d >= 0;
    } else {
      assert (q + 2) * d == q * d + 2 * d;
      DivModIs(now + d - 1, d, q + 1, r - 1);
      DivModIs(now + d, d, q + 1, r);
    }
  }

  /** A creation period of c ticks holds at least 33 updates, whatever the timer frequency. */
  lemma CreationsFarApart(now: nat, hz: nat)
    requires hz >= 100 && now >= hz / 3
    ensures Beats(now, hz / 100) >= Beats(now - hz / 3, hz / 100) + 33
  {
    var u, c := hz / 100, hz / 3;
    assert u >= 1 && c >= 33 * u;
    var a := now - c + u - 1;
    Raise(a, u);
    Order(a + 33 * u, now + u - 1, u);
  }

  lemma Raise(a: nat, d: nat)
    requires d > 0
    ensures (a + 33 * d) / d == a / d + 33
  {
    var q := a / d;
    assert (q + 33) * d == q * d + 33 * d;
    DivModIs(a + 33 * d, d, q + 33, a % d);
  }

  lemma Order(a: nat, b: nat, d: nat)
    requires d > 0 && a <= b
    ensures a / d <= b / d
  {
    var p, q := a / d, b / d;
    assert a == p * d + a % d && b == q * d + b % d;
    assert (q + 1) * d == q * d + d;
    if p > q {
      MulLe(q + 1, p, d);
    }
  }

  // ----- where the game stands when the loop has processed `now` timer interrupts

  /** Every letter is on the screen, a hit or a miss; those on the screen were created far apart. */
  ghost predicate InStep(s: seq<Letter>, hit: nat, miss: nat, now: nat, hz: nat)
    requires hz >= 100
  {
    && hit + miss + |s| == Beats(now, hz / 3)
    && if now == 0 then s == [] else Spread(s, Beats(now, hz / 100), Beats(LastBeat(now, hz / 3), hz / 100))
  }

  // The same between the creation and the position update of one tick.
  ghost predicate MidStep(s: seq<Letter>, hit: nat, miss: nat, now: nat, hz: nat)
    requires hz >= 100
  {
    && hit + miss + |s| == Beats(now + 1, hz / 3)
    && Spread(s, Beats(now, hz / 100), Beats(LastBeat(now + 1, hz / 3), hz / 100))
  }

  lemma StepStarts(hz: nat)
    requires hz >= 100
    ensures InStep([], 0, 0, 0, hz)
  {
    DivModIs(hz / 3 - 1, hz / 3, 0, hz / 3 - 1);
  }

  lemma CreateTick(s: seq<Letter>, l: Letter, hit: nat, miss: nat, now: nat, hz: nat)
    requires hz >= 100 && InStep(s, hit, miss, now, hz) && Multiple(now, hz / 3)
    requires l.x == 0.0 && l.v == 0.5
    ensures MidStep([l] + s, hit, miss, now, hz)
  {
    hide Beats, Multiple, Spread;
    var u, c := hz / 100, hz / 3;
    BeatsStep(now, c);
    if now > 0 {
      CreationsFarApart(now, hz);
    }
    SpreadCreate(s, l, Beats(now, u), if now == 0 then 0 else Beats(now - c, u));
    assert LastBeat(now + 1, c) == now;
  }

  lemma NoCreateTick(s: seq<Letter>, hit: nat, miss: nat, now: nat, hz: nat)
    requires hz >= 100 && InStep(s, hit, miss, now, hz) && !Multiple(now, hz / 3)
    ensures MidStep(s, hit, miss, now, hz)
  {
    hide Beats, Multiple, Spread;
    BeatsStep(now, hz / 3);
    NotAtStart(now, hz / 3);
    assert LastBeat(now + 1, hz / 3) == LastBeat(now, hz / 3);
  }

  lemma NotAtStart(now: nat, d: nat)
    requires d > 0 && !Multiple(now, d)
    ensures now > 0
  {}

  lemma UpdateTick(s: seq<Letter>, hit: nat, miss: nat, now: nat, hz: nat)
    requires hz >= 100 && MidStep(s, hit, miss, now, hz) && Multiple(now, hz / 100)
    ensures InStep(Advance(s), hit + HitCount(s), miss + MissCount(s), now + 1, hz)
  {
    hide Beats, Multiple, Spread, Advance, HitCount, MissCount, LastBeat;
    BeatsStep(now, hz / 100);
    AdvanceConserves(s);
    SpreadAdvance(s, Beats(now, hz / 100), Beats(LastBeat(now + 1, hz / 3), hz / 100));
  }

  lemma NoUpdateTick(s: seq<Letter>, hit: nat, miss: nat, now: nat, hz: nat)
    requires hz >= 100 && MidStep(s, hit, miss, now, hz) && !Multiple(now, hz / 100)
    ensures InStep(s, hit, miss, now + 1, hz)
  {
    hide Beats, Multiple, Spread, LastBeat;
    BeatsStep(now, hz / 100);
  }

  lemma VolleyInStep(s: seq<Letter>, keys: seq<bool>, hit: nat, miss: nat, now: nat, hz: nat)
    requires hz >= 100 && |keys| == 26 && InStep(s, hit, miss, now, hz)
    ensures InStep(Volley(s, keys), hit, miss, now, hz)
  {
    hide Beats, Spread, LastBeat, Volley;
    if now > 0 {
      SpreadVolley(s, keys, Beats(now, hz / 100), Beats(LastBeat(now, hz / 3), hz / 100));
    } else {
      assert Volley(s, keys) == [];
    }
  }

  lemma InStepRoom(s: seq<Letter>, hit: nat, miss: nat, now: nat, hz: nat)
    requires hz >= 100 && InStep(s, hit, miss, now, hz)
    ensures |s| <= 14
  {
    if now > 0 {
      FourteenAtMost(s, Beats(now, hz / 100), Beats(LastBeat(now, hz / 3), hz / 100));
    }
  }

  // ----- the game as a function of its inputs

  datatype World = World(letters: seq<Letter>, keys: seq<bool>, hit: nat, miss: nat)

  // What one simulated interrupt takes from outside: the random numbers of a creation and the scan
  // codes that the keyboard sends before the next one.
  datatype Interrupt = Interrupt(column: nat, speed: nat, text: nat, codes: seq<int>)

  // One pass of the main loop: the codes before it looks at the timer, and the interrupts to catch up with.
  datatype Wake = Wake(codes: seq<int>, ticks: seq<Interrupt>)

  function Press(w: World, codes: seq<int>): (r: World)
    requires |w.keys| == 26
    ensures |r.keys| == 26
  {
    w.(keys := seq(26, c requires 0 <= c < 26 => w.keys[c] || LETTER_CODE[c] in codes))
  }

  function Create(w: World, i: Interrupt): (r: World)
    requires |w.keys| == 26
    ensures |r.keys| == 26
  {
    w.(letters := [NewLetter(i.column, i.speed, i.text)] + w.letters, keys := w.keys[i.text % 26 := false])
  }

  function Update(w: World): World {
    w.(letters := Advance(w.letters), hit := w.hit + HitCount(w.letters), miss := w.miss + MissCount(w.letters))
  }

  // One simulated timer interrupt.
  function Ticked(w: World, hz: nat, now: nat, i: Interrupt): (r: World)
    requires hz >= 100 && |w.keys| == 26
    ensures |r.keys| == 26
  {
    var v := if Multiple(now, hz / 3) then Create(w, i) else w;
    if Multiple(now, hz / 100) then Update(v) else v
  }

  // Catching up with timer interrupts, from the given one on.
  function Sim(w: World, hz: nat, now: nat, ticks: seq<Interrupt>): (r: World)
    requires hz >= 100 && |w.keys| == 26
    ensures |r.keys| == 26
    decreases |ticks|
  {
    if ticks == [] then w
    else
      var n := |ticks| - 1;
      Press(Ticked(Sim(w, hz, now, ticks[..n]), hz, now + n, ticks[n]), ticks[n].codes)
  }

  ghost function Fire(w: World): (r: World)
    requires |w.keys| == 26
    ensures |r.keys| == 26
  {
    w.(letters := Volley(w.letters, w.keys), keys := KeysLeft(w.letters, w.keys))
  }

  ghost function Woken(w: World, hz: nat, now: nat, wake: Wake): (r: World)
    requires hz >= 100 && |w.keys| == 26
    ensures |r.keys| == 26
  {
    var v := Press(w, wake.codes);
    if wake.ticks == [] then v else Sim(Fire(v), hz, now, wake.ticks)
  }

  function Elapsed(wakes: seq<Wake>): nat
    decreases |wakes|
  {
    if wakes == [] then 0 else Elapsed(wakes[..|wakes| - 1]) + |wakes[|wakes| - 1].ticks|
  }

  ghost function Play(w: World, hz: nat, wakes: seq<Wake>): (r: World)
    requires hz >= 100 && |w.keys| == 26
    ensures |r.keys| == 26
    decreases |wakes|
  {
    if wakes == [] then w
    else
      var n := |wakes| - 1;
      Woken(Play(w, hz, wakes[..n]), hz, Elapsed(wakes[..n]), wakes[n])
  }

  /** It does not matter in how many portions the loop catches up. */
  lemma {:induction false} SimJoin(w: World, hz: nat, now: nat, a: seq<Interrupt>, b: seq<Interrupt>)
    requires hz >= 100 && |w.keys| == 26
    ensures Sim(w, hz, now, a + b) == Sim(Sim(w, hz, now, a), hz, now + |a|, b)
    decreases |b|
  {
    hide Ticked, Press;
    if b == [] {
      assert a + b == a;
    } else {
      var n := |b| - 1;
      SimJoin(w, hz, now, a, b[..n]);
      assert (a + b)[..|a + b| - 1] == a + b[..n] && (a + b)[|a + b| - 1] == b[n];
    }
  }

  lemma SimStep(w: World, hz: nat, now: nat, ticks: seq<Interrupt>, i: Interrupt)
    requires hz >= 100 && |w.keys| == 26
    ensures Sim(w, hz, now, ticks + [i]) == Press(Ticked(Sim(w, hz, now, ticks), hz, now + |ticks|, i), i.codes)
  {
    hide Ticked, Press;
    assert (ticks + [i])[..|ticks|] == ticks;
  }

  lemma PlayStep(w: World, hz: nat, wakes: seq<Wake>, k: Wake)
    requires hz >= 100 && |w.keys| == 26
    ensures Play(w, hz, wakes + [k]) == Woken(Play(w, hz, wakes), hz, Elapsed(wakes), k)
    ensures Elapsed(wakes + [k]) == Elapsed(wakes) + |k.ticks|
  {
    hide Woken;
    assert (wakes + [k])[..|wakes|] == wakes;
  }

  // A scan code presses its keys, releases none and changes nothing else.
  lemma Pressed(w: World, codes: seq<int>, c: nat)
    requires |w.keys| == 26 && c < 26
    ensures Press(w, codes).keys[c] == (w.keys[c] || exists i :: 0 <= i < |codes| && codes[i] == LETTER_CODE[c])
    ensures Press(w, codes).(keys := w.keys) == w
  {}

  /** A letter that falls when the loop wakes, whose key has been pressed and that is the lowest of
      its kind, flies up from there on, its key is released, and the others of its kind fall on. */
  lemma PressedLetterShot(w: World, hz: nat, now: nat, wake: Wake, k: nat) returns (v: World)
    requires hz >= 100 && |w.keys| == 26 && wake.ticks != []
    requires k < |w.letters| && w.letters[k].v > 0.0 && w.letters[k].text < 26
    requires LETTER_CODE[w.letters[k].text] in wake.codes
    requires forall j :: 0 <= j < |w.letters| && j != k && w.letters[j].text == w.letters[k].text ==>
      w.letters[j].v <= 0.0 || w.letters[j].x < w.letters[k].x
    ensures |v.keys| == 26 && Woken(w, hz, now, wake) == Sim(v, hz, now, wake.ticks)
    ensures |v.letters| == |w.letters| && v.letters[k] == w.letters[k].(v := -3.0) && !v.keys[w.letters[k].text]
    ensures forall j :: 0 <= j < |w.letters| && j != k && w.letters[j].text == w.letters[k].text ==>
      v.letters[j] == w.letters[j]
  {
    hide Sim;
    var p := Press(w, wake.codes);
    v := Fire(p);
    assert p.keys[w.letters[k].text];
    assert Shot(p.letters, p.keys, k);
    assert Falling(p.letters, w.letters[k].text);
    forall j | 0 <= j < |w.letters| && j != k && w.letters[j].text == w.letters[k].text
      ensures !Shot(p.letters, p.keys, j)
    {
      assert w.letters[j].v > 0.0 ==> !Outranks(p.letters, j, k);
    }
  }

  ghost predicate Due(lo: nat, hi: nat, d: nat)
    requires d > 0
  {
    exists t :: lo <= t < hi && Multiple(t, d)
  }

  // ----- lists of letters that share nothing with the free list

  lemma UpdateShown(ls: seq<Node<Letter>>, head: int, s: seq<nat>, i: nat, l: Letter)
    requires Linked(ls, head, s) && i < |s| && s[i] < |ls|
    ensures Linked(ls[s[i] := ls[s[i]].(data := l)], head, s)
    ensures Shown(ls[s[i] := ls[s[i]].(data := l)], s) == Shown(ls, s)[i := l]
  {
    LinkedFrame(ls, ls[s[i] := ls[s[i]].(data := l)], head, s);
  }

  // Changes to elements outside the free list leave it linked.
  lemma KeepFree(ls: seq<Node<Letter>>, ks: seq<Node<Letter>>, free: int, idle: seq<nat>, live: seq<nat>, n: nat)
    requires FreeLinked(ls, free, idle) && Partition(live, idle, n) && |ks| == |ls|
    requires forall k :: 0 <= k < |ls| && k !in live ==> ks[k] == ls[k]
    ensures FreeLinked(ks, free, idle)
  {
    Apart(live, idle, n);
    assert forall k :: k in idle ==> k !in live;
    FreeFrame(ls, ks, free, idle);
  }

  lemma ListEnds(ls: seq<Node<Letter>>, head: int, s: seq<nat>, i: nat)
    requires Linked(ls, head, s) && i <= |s|
    ensures head == At(s, 0) && Within(s, |ls|)
    ensures i < |s| ==> Joined(ls, s, i)
  {}

  class Game {
    const fly: Pool<Letter>
    const letterPressed: array<bool>
    var head: int
    var hit: nat
    var miss: nat
    var realFps: nat
    ghost var live: seq<nat>

    /** The live list and the free list share the pool; the keys are the 26 letters. */
    ghost predicate Shape()
      reads this, fly, fly.nodes, letterPressed
    {
      && letterPressed.Length == 26 && fly.size == SIZE && fly.Valid()
      && Partition(live, fly.idle, SIZE + 1) && Linked(fly.nodes[..], head, live)
      && (live != [] ==> fly.free != NULL)
    }

    ghost predicate Valid()
      reads this, fly, fly.nodes, letterPressed
    {
      Shape() && AllOnScreen(Letters())
    }

    /** The letters on the screen, newest first. */
    ghost function Letters(): seq<Letter>
      reads this, fly, fly.nodes
      requires Linked(fly.nodes[..], head, live)
    {
      Shown(fly.nodes[..], live)
    }

    constructor ()
      ensures Valid() && fresh(fly) && fresh(fly.nodes) && fresh(letterPressed)
      ensures Letters() == [] && hit == miss == 0 && letterPressed[..] == seq(26, _ => false)
    {
      fly := new Pool(SIZE, Letter(0.0, 0, 0.0, 0));
      letterPressed := new bool[26](_ => false);
      head, hit, miss, realFps, live := NULL, 0, 0, 0, [];
      new;
      assert [] + fly.idle == fly.idle;
    }

    /** Allocate an element and link it in front of the list. */
    method Prepend()
      requires Shape() && |live| < SIZE
      modifies this`head, this`live, fly, fly.nodes
      ensures Shape()
      ensures |live| == |old(live)| + 1 && head == live[0]
      ensures Letters()[1..] == old(Letters())
    {
      hide Partition, Distinct, Inserted;
      ghost var s, before := live, fly.nodes[..];
      TakeFree(live, fly.idle, SIZE + 1);
      var now := fly.New();
      ghost var ls := fly.nodes[..];
      LinkedFrame(before, ls, head, s);
      if head == NULL {
        assert s == [];
        head := now;
        live := [now] + s;
        assert live == [now];
        LinkedAlone(ls, now);
      } else {
        PushFront(ls, head, s, now);
        fly.Insert(NULL, head, now);
        head := now;
        live := [now] + s;
        KeepFree(ls, fly.nodes[..], fly.free, fly.idle, live, SIZE + 1);
      }
    }

    method CreateNewLetter(column: nat, speed: nat, text: nat)
      requires Valid() && |Letters()| < SIZE
      modifies this`head, this`live, fly, fly.nodes, letterPressed
      ensures Valid()
      ensures Letters() == [NewLetter(column, speed, text)] + old(Letters())
      ensures letterPressed[..] == old(letterPressed[..])[text % 26 := false]
    {
      hide Partition, Distinct, NewLetter;
      Prepend();
      ghost var ls := fly.nodes[..];
      ghost var l := NewLetter(column, speed, text);
      fly.nodes[head] := fly.nodes[head].(data := NewLetter(column, speed, text));
      UpdateShown(ls, head, live, 0, l);
      SpeedIsFixed(column, speed, text);
      KeepFree(ls, fly.nodes[..], fly.free, fly.idle, live, SIZE + 1);
      letterPressed[text % 26] := false;
    }

    /** it->x += it->v, for the i-th letter. */
    method Move(it: nat, ghost i: nat)
      requires Shape() && i < |live| && live[i] == it
      modifies fly.nodes
      ensures it < fly.nodes.Length && Shape()
      ensures fly.nodes[it].data == Moved(old(Letters())[i]) && fly.nodes[it].next == old(fly.nodes[it].next)
      ensures Letters() == old(Letters())[i := Moved(old(Letters())[i])]
    {
      hide Partition, Distinct, Moved;
      ghost var ls := fly.nodes[..];
      assert Joined(ls, live, i);
      fly.nodes[it] := fly.nodes[it].(data := Moved(fly.nodes[it].data));
      UpdateShown(ls, head, live, i, Moved(ls[it].data));
      KeepFree(ls, fly.nodes[..], fly.free, fly.idle, live, SIZE + 1);
    }

    /** fly_remove and fly_free of the i-th letter, and the new head if it was the first. */
    method Discard(it: nat, next: int, ghost i: nat)
      requires Shape() && i < |live| && live[i] == it && next == At(live, i + 1)
      modifies this`head, this`live, fly, fly.nodes
      ensures Shape() && live == RemoveAt(old(live), i)
      ensures Letters() == RemoveAt(old(Letters()), i)
    {
      hide Partition, Distinct, Removed, RemoveAt;
      ghost var s, ls := live, fly.nodes[..];
      Unlink(ls, head, s, i);
      GiveBack(s, fly.idle, i, SIZE + 1);
      fly.Remove(it);
      ghost var ks := fly.nodes[..];
      KeepFree(ls, ks, fly.free, fly.idle, s, SIZE + 1);
      fly.Free(it);
      RemoveDistinct(s, i);
      if it == head {
        head := next;
      }
      live := RemoveAt(live, i);
      LinkedFrame(ks, fly.nodes[..], head, live);
    }

    method UpdateLetterPos()
      requires Valid()
      modifies this`head, this`live, this`hit, this`miss, fly, fly.nodes
      ensures Valid() && Letters() == Advance(old(Letters()))
      ensures hit == old(hit) + HitCount(old(Letters())) && miss == old(miss) + MissCount(old(Letters()))
    {
      hide Partition, Distinct, Linked, Advance, HitCount, MissCount, Passing, Pool<Letter>.Valid;
      ghost var i, was, h, m := 0, Letters(), hit, miss;
      ListEnds(fly.nodes[..], head, live, 0);
      PassStart(was);
      var it := head;
      while it != NULL
        invariant Valid() && i <= |live| && it == At(live, i)
        invariant Passing(was, Letters(), i, hit - h, miss - m)
        decreases |live| - i
      {
        ListEnds(fly.nodes[..], head, live, i);
        ghost var s, hits, misses := Letters(), hit - h, miss - m;
        ScreenKept(s, i);
        var next := fly.nodes[it].next;
        Move(it, i);
        var x := fly.nodes[it].data.x;
        if x < 0.0 || x + 7.9 > SCR_HEIGHT {
          if x < 0.0 {
            hit := hit + 1;
          } else {
            miss := miss + 1;
          }
          Discard(it, next, i);
          PassDropped(was, s, i, hits, misses);
        } else {
          PassKept(was, s, i, hits, misses);
          i := i + 1;
        }
        it := next;
      }
      PassEnd(was, Letters(), hit - h, miss - m);
    }

    /** Shoots one letter; k names it. */
    method UpdateKeypress() returns (found: bool, ghost k: nat)
      requires Valid()
      modifies fly.nodes, letterPressed
      ensures Valid()
      ensures found ==> Target(old(Letters()), old(letterPressed[..]), k)
      ensures found ==> Letters() == old(Letters())[k := old(Letters())[k].(v := -3.0)]
      ensures found ==> letterPressed[..] == old(letterPressed[..])[old(Letters())[k].text := false]
      ensures !found ==> Letters() == old(Letters()) && letterPressed[..] == old(letterPressed[..])
      ensures !found ==> forall j :: 0 <= j < |Letters()| ==> !Struck(Letters()[j], letterPressed[..])
    {
      hide Partition, Distinct, Linked, Scanned, Struck, Outranks, Target;
      ghost var s, keys, ls := Letters(), letterPressed[..], fly.nodes[..];
      var target, min := NULL, -100.0;
      ListEnds(fly.nodes[..], head, live, 0);
      var it := head;
      ghost var i := 0;
      k := 0;
      ScanStart(s, keys);
      while it != NULL
        modifies {}
        invariant fly.nodes[..] == ls && letterPressed[..] == keys
        invariant i <= |s| && it == At(live, i) && NULL <= target
        invariant Scanned(s, keys, i, target != NULL, k, min)
        invariant target != NULL ==> k < |s| && target == live[k]
        decreases |s| - i
      {
        ListEnds(ls, head, live, i);
        var letter := fly.nodes[it].data;
        assert letter == s[i] && OnScreen(s[i]);
        ScanStep(s, keys, i, target != NULL, k, min);
        if letter.v > 0.0 && letter.x > min && letterPressed[letter.text] {
          min := letter.x;
          target := it;
          k := i;
        }
        it := fly.nodes[it].next;
        i := i + 1;
      }
      ScanEnd(s, keys, target != NULL, k, min);
      found := target != NULL;
      if found {
        ListEnds(ls, head, live, k);
        letterPressed[fly.nodes[target].data.text] := false;
        fly.nodes[target] := fly.nodes[target].(data := Shoot(fly.nodes[target].data));
        UpdateShown(ls, head, live, k, Shoot(s[k]));
        KeepFree(ls, fly.nodes[..], fly.free, fly.idle, live, SIZE + 1);
      }
    }

    /** while (update_keypress()); -- it ends, and leaves what all the pressed keys do at once. */
    method HandleKeys()
      requires Valid()
      modifies fly.nodes, letterPressed
      ensures Valid()
      ensures Letters() == Volley(old(Letters()), old(letterPressed[..]))
      ensures letterPressed[..] == KeysLeft(old(Letters()), old(letterPressed[..]))
    {
      hide Volley, KeysLeft, Target, Struck, Partition, Linked, Distinct;
      var found, k := UpdateKeypress();
      TargetStep(old(Letters()), old(letterPressed[..]), k, found);
      while found
        invariant Valid()
        invariant Volley(Letters(), letterPressed[..]) == Volley(old(Letters()), old(letterPressed[..]))
        invariant KeysLeft(Letters(), letterPressed[..]) == KeysLeft(old(Letters()), old(letterPressed[..]))
        invariant !found ==> Volley(Letters(), letterPressed[..]) == Letters()
        invariant !found ==> KeysLeft(Letters(), letterPressed[..]) == letterPressed[..]
        decreases FallingCount(Letters()), found
      {
        ghost var s, keys := Letters(), letterPressed[..];
        found, k := UpdateKeypress();
        TargetStep(s, keys, k, found);
      }
    }

    /** The keyboard interrupt. */
    method PressKey(scanCode: int)
      requires letterPressed.Length == 26
      modifies letterPressed
      ensures forall c :: 0 <= c < 26 ==> letterPressed[c] == (old(letterPressed[c]) || LETTER_CODE[c] == scanCode)
    {
      for i := 0 to 26
        invariant forall c :: 0 <= c < 26 ==>
          letterPressed[c] == (old(letterPressed[c]) || (c < i && LETTER_CODE[c] == scanCode))
      {
        if LETTER_CODE[i] == scanCode {
          letterPressed[i] := true;
        }
      }
    }

    ghost function Now(): (w: World)
      reads this, fly, fly.nodes, letterPressed
      requires letterPressed.Length == 26 && Linked(fly.nodes[..], head, live)
      ensures |w.keys| == 26
    {
      World(Letters(), letterPressed[..], hit, miss)
    }

    /** One simulated timer interrupt. */
    method Tick(hz: nat, now: nat) returns (ghost i: Interrupt)
      requires hz >= 100 && Valid() && InStep(Letters(), hit, miss, now, hz)
      modifies this`head, this`live, this`hit, this`miss, fly, fly.nodes, letterPressed
      ensures Valid() && InStep(Letters(), hit, miss, now + 1, hz)
      ensures Now() == Ticked(old(Now()), hz, now, i)
    {
      hide InStep, MidStep, Multiple, Partition, Linked, Distinct, NewLetter, Advance, HitCount, MissCount;
      hide Pool<Letter>.Valid;
      InStepRoom(Letters(), hit, miss, now, hz);
      ghost var s, w := Letters(), Now();
      i := Interrupt(0, 0, 0, []);
      if Multiple(now, hz / CHARACTER_PER_SECOND) {
        var column: nat, speed: nat, text: nat := *, *, *;
        i := Interrupt(column, speed, text, []);
        CreateNewLetter(column, speed, text);
        SpeedIsFixed(column, speed, text);
        CreateTick(s, NewLetter(column, speed, text), hit, miss, now, hz);
      } else {
        NoCreateTick(s, hit, miss, now, hz);
      }
      ghost var t, h, m := Letters(), hit, miss;
      assert Now() == if Multiple(now, hz / 3) then Create(w, i) else w;
      if Multiple(now, hz / UPDATE_PER_SECOND) {
        UpdateLetterPos();
        UpdateTick(t, h, m, now, hz);
      } else {
        NoUpdateTick(t, h, m, now, hz);
      }
    }

    /** Any number of keyboard interrupts, with any codes. */
    method KeyboardInterrupts() returns (ghost pressed: seq<int>)
      requires Valid()
      modifies letterPressed
      ensures Valid() && Now() == Press(old(Now()), pressed)
    {
      var codes: seq<int> := *;
      for i := 0 to |codes|
        invariant forall c :: 0 <= c < 26 ==>
          letterPressed[c] == (old(letterPressed[c]) || LETTER_CODE[c] in codes[..i])
      {
        PressKey(codes[i]);
        assert codes[..i + 1] == codes[..i] + [codes[i]];
      }
      assert codes[..|codes|] == codes;
      pressed := codes;
    }

    /** The inner loop of main_loop: simulate the timer interrupts from start to target. The first
        beat of the half-second clock takes the drawings since the last one for the frame rate. */
    method CatchUp(hz: nat, start: nat, target: nat, draws: nat)
        returns (redraw: bool, numDraw: nat, ghost ticks: seq<Interrupt>)
      requires hz >= 100 && start <= target && Valid() && InStep(Letters(), hit, miss, start, hz)
      requires realFps <= FPS
      modifies this, fly, fly.nodes, letterPressed
      ensures Valid() && InStep(Letters(), hit, miss, target, hz)
      ensures |ticks| == target - start && Now() == Sim(old(Now()), hz, start, ticks)
      ensures redraw <==> Due(start, target, hz / FPS)
      ensures realFps <= FPS && numDraw == if Due(start, target, hz / 2) then 0 else draws
      ensures realFps == FrameRate(old(realFps), draws, Beats(target, hz / 2) - Beats(start, hz / 2))
    {
      hide Multiple, InStep, Partition, Linked, Distinct, Sim, Ticked, Press, Beats, Due;
      redraw, numDraw, ticks := false, draws, [];
      var now := start;
      NothingDue(start, hz / FPS);
      NothingDue(start, hz / 2);
      assert Sim(Now(), hz, start, []) == Now() by {
        SimNone(Now(), hz, start);
      }
      while now < target
        invariant start <= now <= target && Valid() && InStep(Letters(), hit, miss, now, hz)
        invariant |ticks| == now - start && Now() == Sim(old(Now()), hz, start, ticks)
        invariant redraw <==> Due(start, now, hz / FPS)
        invariant realFps <= FPS && numDraw == if Due(start, now, hz / 2) then 0 else draws
        invariant Beats(now, hz / 2) >= Beats(start, hz / 2)
        invariant Beats(now, hz / 2) > Beats(start, hz / 2) <==> Due(start, now, hz / 2)
        invariant realFps == FrameRate(old(realFps), draws, Beats(now, hz / 2) - Beats(start, hz / 2))
      {
        ghost var i := Tick(hz, now);
        DueStep(start, now, hz / FPS);
        DueStep(start, now, hz / 2);
        BeatsStep(now, hz / 2);
        if Multiple(now, hz / FPS) {
          redraw := true;
        }
        if Multiple(now, hz / 2) {
          var nowFps := numDraw * 2 + 1;
          if nowFps > FPS {
            nowFps := FPS;
          }
          realFps := nowFps;
          numDraw := 0;
        }
        ghost var w := Now();
        ghost var codes := KeyboardInterrupts();
        SimNext(old(Now()), hz, start, ticks, i, w, codes);
        ticks := ticks + [i.(codes := codes)];
        now := now + 1;
      }
    }

    /** main_loop, for any frequency of at least 100 and any values the timer shows when the loop wakes:
        the game is the function Play of its inputs. */
    method MainLoop(hz: nat, ticks: seq<nat>) returns (ghost wakes: seq<Wake>)
      requires hz >= 100 && forall i, j :: 0 <= i < j < |ticks| ==> ticks[i] <= ticks[j]
      requires Valid() && Letters() == [] && hit == miss == 0 && realFps == 0
      modifies this, fly, fly.nodes, letterPressed
      ensures Valid() && InStep(Letters(), hit, miss, if ticks == [] then 0 else ticks[|ticks| - 1], hz)
      ensures |Letters()| <= 14 && realFps <= FPS
      ensures |wakes| == |ticks| && Now() == Play(old(Now()), hz, wakes)
      ensures forall i :: 0 <= i < |ticks| ==> |wakes[i].ticks| == ticks[i] - if i == 0 then 0 else ticks[i - 1]
    {
      hide InStep, Partition, Linked, Distinct, Volley, KeysLeft, Sim, Press, Play, Elapsed, Beats, Due;
      StepStarts(hz);
      var now, numDraw := 0, 0;
      wakes := [];
      PlayNone(Now(), hz);
      for wake := 0 to |ticks|
        invariant now == (if wake == 0 then 0 else ticks[wake - 1]) && realFps <= FPS
        invariant Valid() && InStep(Letters(), hit, miss, now, hz)
        invariant |wakes| == wake && Now() == Play(old(Now()), hz, wakes) && Elapsed(wakes) == now
        invariant forall i :: 0 <= i < wake ==> |wakes[i].ticks| == ticks[i] - if i == 0 then 0 else ticks[i - 1]
      {
        ghost var w := Now();
        ghost var codes := KeyboardInterrupts();
        var tick := ticks[wake];
        PlayStep(old(Now()), hz, wakes, Wake(codes, []));
        if now == tick {
          wakes := wakes + [Wake(codes, [])];
          continue;
        }
        assert now < tick;
        var target := tick;
        VolleyInStep(Letters(), letterPressed[..], hit, miss, now, hz);
        HandleKeys();
        var redraw;
        ghost var caught;
        redraw, numDraw, caught := CatchUp(hz, now, target, numDraw);
        PlayStep(old(Now()), hz, wakes, Wake(codes, caught));
        wakes := wakes + [Wake(codes, caught)];
        now := target;
        if redraw {
          numDraw := numDraw + 1;
        }
      }
      InStepRoom(Letters(), hit, miss, now, hz);
    }
  }

  // Twice the drawings of half a second, and one, capped; later beats find no drawings.
  function FrameRate(was: nat, draws: nat, beats: int): nat {
    if beats <= 0 then was else if beats > 1 then 1 else if 2 * draws + 1 > 30 then 30 else 2 * draws + 1
  }

  lemma NothingDue(lo: nat, d: nat)
    requires d > 0
    ensures !Due(lo, lo, d)
  {}

  lemma SimNone(w: World, hz: nat, now: nat)
    requires hz >= 100 && |w.keys| == 26
    ensures Sim(w, hz, now, []) == w
  {}

  lemma PlayNone(w: World, hz: nat)
    requires hz >= 100 && |w.keys| == 26
    ensures Play(w, hz, []) == w && Elapsed([]) == 0
  {}

  // The codes of an interrupt come after its tick.
  lemma SimNext(w0: World, hz: nat, start: nat, ticks: seq<Interrupt>, i: Interrupt, w: World, codes: seq<int>)
    requires hz >= 100 && |w0.keys| == 26
    requires w == Ticked(Sim(w0, hz, start, ticks), hz, start + |ticks|, i)
    ensures |w.keys| == 26 && Press(w, codes) == Sim(w0, hz, start, ticks + [i.(codes := codes)])
  {
    hide Press, Sim;
    SimStep(w0, hz, start, ticks, i.(codes := codes));
  }

  lemma DueStep(lo: nat, now: nat, d: nat)
    requires lo <= now && d > 0
    ensures Due(lo, now + 1, d) <==> Due(lo, now, d) || Multiple(now, d)
  {
    hide Multiple;
    if Due(lo, now, d) {
      var t :| lo <= t < now && Multiple(t, d);
    }
  }

  lemma TargetStep(s: seq<Letter>, keys: seq<bool>, k: nat, found: bool)
    requires |keys| == 26 && AllOnScreen(s) && (found ==> Target(s, keys, k))
    requires !found ==> forall j :: 0 <= j < |s| ==> !Struck(s[j], keys)
    ensures found ==> k < |s| && s[k].text < 26
    ensures found ==> var t, ks := s[k := Shoot(s[k])], keys[s[k].text := false];
      Volley(t, ks) == Volley(s, keys) && KeysLeft(t, ks) == KeysLeft(s, keys)
      && FallingCount(t) < FallingCount(s)
    ensures !found ==> Volley(s, keys) == s && KeysLeft(s, keys) == keys
  {
    hide Volley, KeysLeft, FallingCount;
    if found {
      TargetFirst(s, keys, k);
      ShootCount(s, k);
    } else {
      NoTarget(s, keys);
    }
  }
}
