/** What the falling letters of the typing game do, list by list: game/src/typing/effect.c on
    values. Positions and speeds are multiples of one half, which reals carry exactly. */
module Letters {
  const SCR_WIDTH: nat := 320
  const SCR_HEIGHT := 200.0

  datatype Letter = Letter(x: real, y: nat, v: real, text: nat)

  function NewLetter(column: nat, speed: nat, text: nat): Letter {
    Letter(0.0, column % (SCR_WIDTH / 8 - 2) * 8 + 8, (speed % 1000 / 2000) as real + 0.5, text % 26)
  }

  /** The drop speed is meant to be random; the integer division makes it one half, always. */
  lemma SpeedIsFixed(column: nat, speed: nat, text: nat)
    ensures NewLetter(column, speed, text).v == 0.5 && NewLetter(column, speed, text).x == 0.0
    ensures NewLetter(column, speed, text) == Letter(0.0, column % 38 * 8 + 8, 0.5, text % 26)
    ensures OnScreen(NewLetter(column, speed, text))
    ensures 8 <= NewLetter(column, speed, text).y <= SCR_WIDTH - 16
  {
    assert column % 38 <= 37;
  }

  predicate OnScreen(l: Letter) { 0.0 <= l.x && l.text < 26 }

  predicate AllOnScreen(s: seq<Letter>) { forall k :: 0 <= k < |s| ==> OnScreen(s[k]) }

  // ----- one tick of update_letter_pos

  function Moved(l: Letter): Letter { l.(x := l.x + l.v) }

  predicate LeftTop(l: Letter) { l.x < 0.0 }

  predicate LeftBottom(l: Letter) { l.x >= 0.0 && l.x + 7.9 > SCR_HEIGHT }

  predicate Gone(l: Letter) { LeftTop(l) || LeftBottom(l) }

  function Advance(s: seq<Letter>): seq<Letter> {
    if s == [] then [] else (if Gone(Moved(s[0])) then [] else [Moved(s[0])]) + Advance(s[1..])
  }

  function HitCount(s: seq<Letter>): nat {
    if s == [] then 0 else (if LeftTop(Moved(s[0])) then 1 else 0) + HitCount(s[1..])
  }

  function MissCount(s: seq<Letter>): nat {
    if s == [] then 0 else (if LeftBottom(Moved(s[0])) then 1 else 0) + MissCount(s[1..])
  }

  /** One letter: it moves by its speed and leaves the list past the top, as a hit, or past the bottom,
      as a miss. */
  lemma AdvanceOne(l: Letter)
    ensures Advance([l]) == if 0.0 <= l.x + l.v <= 192.1 then [Letter(l.x + l.v, l.y, l.v, l.text)] else []
    ensures HitCount([l]) == if l.x + l.v < 0.0 then 1 else 0
    ensures MissCount([l]) == if l.x + l.v > 192.1 then 1 else 0
  {
    assert [l][1..] == [];
    assert Advance([]) == [] && HitCount([]) == 0 && MissCount([]) == 0;
  }

  /** Letters do not interact: what happens to a list is what happens to its parts. */
  lemma {:induction false} AdvanceJoin(s: seq<Letter>, t: seq<Letter>)
    ensures Advance(s + t) == Advance(s) + Advance(t)
    ensures HitCount(s + t) == HitCount(s) + HitCount(t) && MissCount(s + t) == MissCount(s) + MissCount(t)
    decreases |s|
  {
    hide Moved, Gone, LeftTop, LeftBottom;
    if s == [] {
      assert s + t == t;
    } else {
      var m := Moved(s[0]);
      assert (s + t)[0] == s[0] && (s + t)[1..] == s[1..] + t;
      AdvanceJoin(s[1..], t);
      var head := if Gone(m) then [] else [m];
      assert Advance(s + t) == head + Advance(s[1..] + t) && Advance(s) == head + Advance(s[1..]);
      hide Advance;
      assert head + (Advance(s[1..]) + Advance(t)) == head + Advance(s[1..]) + Advance(t);
    }
  }

  /** A tick loses no letter: each stays, is a hit or is a miss. */
  lemma {:induction false} AdvanceConserves(s: seq<Letter>)
    ensures |Advance(s)| + HitCount(s) + MissCount(s) == |s|
  {
    if s != [] {
      AdvanceConserves(s[1..]);
    }
  }

  /** A pass over was has come to letter i of what is left, having counted hits and misses. */
  ghost predicate Passing(was: seq<Letter>, s: seq<Letter>, i: nat, hits: int, misses: int) {
    && i <= |s| && s[..i] + Advance(s[i..]) == Advance(was)
    && hits + HitCount(s[i..]) == HitCount(was) && misses + MissCount(s[i..]) == MissCount(was)
  }

  lemma PassStart(s: seq<Letter>)
    ensures Passing(s, s, 0, 0, 0)
  {
    assert s[0..] == s;
  }

  lemma PassEnd(was: seq<Letter>, s: seq<Letter>, hits: int, misses: int)
    requires Passing(was, s, |s|, hits, misses)
    ensures s == Advance(was) && hits == HitCount(was) && misses == MissCount(was)
  {
    assert s[..|s|] == s;
  }

  lemma PassDropped(was: seq<Letter>, s: seq<Letter>, i: nat, hits: int, misses: int)
    requires Passing(was, s, i, hits, misses) && i < |s| && Gone(Moved(s[i]))
    ensures var up := LeftTop(Moved(s[i]));
      Passing(was, s[..i] + s[i + 1..], i, hits + if up then 1 else 0, misses + if up then 0 else 1)
  {
    hide Moved, Gone, LeftTop, LeftBottom;
    OneWay(Moved(s[i]));
    Unfold(s, i);
    var gone := s[..i] + s[i + 1..];
    assert gone[..i] == s[..i] && gone[i..] == s[i + 1..];
  }

  lemma PassKept(was: seq<Letter>, s: seq<Letter>, i: nat, hits: int, misses: int)
    requires Passing(was, s, i, hits, misses) && i < |s| && !Gone(Moved(s[i]))
    ensures Passing(was, s[i := Moved(s[i])], i + 1, hits, misses)
  {
    hide Moved, Gone, LeftTop, LeftBottom;
    OneWay(Moved(s[i]));
    Unfold(s, i);
    var kept := s[i := Moved(s[i])];
    assert kept[..i + 1] == s[..i] + [Moved(s[i])] && kept[i + 1..] == s[i + 1..];
  }

  lemma ScreenKept(s: seq<Letter>, i: nat)
    requires AllOnScreen(s) && i < |s|
    ensures AllOnScreen(s[..i] + s[i + 1..])
    ensures !Gone(Moved(s[i])) ==> AllOnScreen(s[i := Moved(s[i])])
  {}

  lemma Unfold(s: seq<Letter>, i: nat)
    requires i < |s|
    ensures var m := Moved(s[i]);
      && Advance(s[i..]) == (if Gone(m) then [] else [m]) + Advance(s[i + 1..])
      && HitCount(s[i..]) == (if LeftTop(m) then 1 else 0) + HitCount(s[i + 1..])
      && MissCount(s[i..]) == (if LeftBottom(m) then 1 else 0) + MissCount(s[i + 1..])
  {
    hide Moved, Gone, LeftTop, LeftBottom;
    assert s[i..][0] == s[i] && s[i..][1..] == s[i + 1..];
  }

  lemma OneWay(m: Letter)
    ensures Gone(m) ==> (LeftTop(m) <==> !LeftBottom(m))
    ensures !Gone(m) ==> !LeftTop(m) && !LeftBottom(m)
  {}

  // ----- the key presses: one update_keypress, and the loop that repeats it

  /** update_keypress aims at letter k: falling, its key down, lowest of these, newest of equals. */
  ghost predicate Target(s: seq<Letter>, keys: seq<bool>, k: int)
    requires |keys| == 26 && AllOnScreen(s)
  {
    0 <= k < |s| && Struck(s[k], keys) && forall j :: 0 <= j < |s| && Struck(s[j], keys) ==> Outranks(s, k, j)
  }

  predicate Struck(l: Letter, keys: seq<bool>)
    requires |keys| == 26
  {
    l.v > 0.0 && l.text < 26 && keys[l.text]
  }

  predicate Outranks(s: seq<Letter>, k: nat, j: nat)
    requires k < |s| && j < |s|
  {
    s[j].x <= s[k].x && (j < k ==> s[j].x < s[k].x)
  }

  /** The scan of update_keypress after i letters: k is its target so far, if it has one. */
  ghost predicate Scanned(s: seq<Letter>, keys: seq<bool>, i: nat, found: bool, k: nat, min: real)
    requires |keys| == 26 && i <= |s|
  {
    if found then
      k < i && Struck(s[k], keys) && min == s[k].x
      && forall j :: 0 <= j < i && Struck(s[j], keys) ==> Outranks(s, k, j)
    else min == -100.0 && forall j :: 0 <= j < i ==> !Struck(s[j], keys)
  }

  lemma ScanStep(s: seq<Letter>, keys: seq<bool>, i: nat, found: bool, k: nat, min: real)
    requires |keys| == 26 && i < |s| && AllOnScreen(s) && Scanned(s, keys, i, found, k, min)
    ensures var better := s[i].v > 0.0 && s[i].x > min && keys[s[i].text];
      if better then Scanned(s, keys, i + 1, true, i, s[i].x) else Scanned(s, keys, i + 1, found, k, min)
  {
    assert OnScreen(s[i]);
  }

  lemma ScanStart(s: seq<Letter>, keys: seq<bool>)
    requires |keys| == 26
    ensures Scanned(s, keys, 0, false, 0, -100.0)
  {}

  lemma ScanEnd(s: seq<Letter>, keys: seq<bool>, found: bool, k: nat, min: real)
    requires |keys| == 26 && AllOnScreen(s) && Scanned(s, keys, |s|, found, k, min)
    ensures if found then Target(s, keys, k) else forall j :: 0 <= j < |s| ==> !Struck(s[j], keys)
    ensures found ==> AllOnScreen(s[k := Shoot(s[k])])
  {}

  function Shoot(l: Letter): Letter { l.(v := -3.0) }

  /** All pressed keys at once: every key that is down shoots its own lowest letter, if it has one. */
  ghost predicate Shot(s: seq<Letter>, keys: seq<bool>, k: nat)
    requires |keys| == 26 && k < |s|
  {
    Struck(s[k], keys) && forall j :: 0 <= j < |s| && s[j].text == s[k].text && s[j].v > 0.0 ==> Outranks(s, k, j)
  }

  ghost function Volley(s: seq<Letter>, keys: seq<bool>): (r: seq<Letter>)
    requires |keys| == 26
    ensures |r| == |s|
  {
    seq(|s|, k requires 0 <= k < |s| => if Shot(s, keys, k) then Shoot(s[k]) else s[k])
  }

  predicate Falling(s: seq<Letter>, c: nat) { exists k :: 0 <= k < |s| && s[k].text == c && s[k].v > 0.0 }

  /** The keys that stay down are those no falling letter answers to. */
  ghost function KeysLeft(s: seq<Letter>, keys: seq<bool>): (r: seq<bool>)
    requires |keys| == 26
    ensures |r| == 26
  {
    seq(26, c requires 0 <= c < 26 => keys[c] && !Falling(s, c))
  }

  /** Shooting one target first changes nothing about the volley. */
  lemma TargetFirst(s: seq<Letter>, keys: seq<bool>, k: nat)
    requires |keys| == 26 && AllOnScreen(s) && Target(s, keys, k)
    ensures var t, ks := s[k := Shoot(s[k])], keys[s[k].text := false];
      Volley(t, ks) == Volley(s, keys) && KeysLeft(t, ks) == KeysLeft(s, keys)
  {
    var t, ks := s[k := Shoot(s[k])], keys[s[k].text := false];
    assert Shot(s, keys, k);
    forall i | 0 <= i < |s|
      ensures Volley(t, ks)[i] == Volley(s, keys)[i]
    {
      SameShot(s, keys, k, i);
    }
    forall c | 0 <= c < 26
      ensures KeysLeft(t, ks)[c] == KeysLeft(s, keys)[c]
    {
      SameFalling(s, k, c);
    }
  }

  lemma SameFalling(s: seq<Letter>, k: nat, c: nat)
    requires k < |s| && s[k].v > 0.0
    ensures Falling(s, s[k].text)
    ensures c != s[k].text ==> Falling(s[k := Shoot(s[k])], c) == Falling(s, c)
  {
    var t := s[k := Shoot(s[k])];
    if c != s[k].text && Falling(s, c) {
      var i :| 0 <= i < |s| && s[i].text == c && s[i].v > 0.0;
      assert t[i] == s[i];
    }
    if c != s[k].text && Falling(t, c) {
      var i :| 0 <= i < |t| && t[i].text == c && t[i].v > 0.0;
      assert t[i] == s[i];
    }
  }

  lemma SameShot(s: seq<Letter>, keys: seq<bool>, k: nat, i: nat)
    requires |keys| == 26 && k < |s| && Shot(s, keys, k) && i < |s|
    ensures var t, ks := s[k := Shoot(s[k])], keys[s[k].text := false];
      i != k ==> Shot(t, ks, i) == Shot(s, keys, i)
  {
    var t, ks := s[k := Shoot(s[k])], keys[s[k].text := false];
    if i != k && s[i].text == s[k].text && s[i].v > 0.0 {
      assert Outranks(s, k, i);
    }
    if i != k && Shot(t, ks, i) {
      forall j | 0 <= j < |s| && s[j].text == s[i].text && s[j].v > 0.0
        ensures Outranks(s, i, j)
      {
        assert t[j] == s[j] && Outranks(t, i, j);
      }
    }
    if i != k && Shot(s, keys, i) && s[i].text != s[k].text {
      forall j | 0 <= j < |t| && t[j].text == t[i].text && t[j].v > 0.0
        ensures Outranks(t, i, j)
      {
        assert t[j] == s[j] && Outranks(s, i, j);
      }
    }
  }

  /** With no target the volley is over. */
  lemma NoTarget(s: seq<Letter>, keys: seq<bool>)
    requires |keys| == 26 && forall k :: 0 <= k < |s| ==> OnScreen(s[k]) && !Struck(s[k], keys)
    ensures Volley(s, keys) == s && KeysLeft(s, keys) == keys
  {
    forall c | 0 <= c < 26
      ensures KeysLeft(s, keys)[c] == keys[c]
    {
      assert forall k :: 0 <= k < |s| && s[k].text == c && s[k].v > 0.0 ==> !keys[c];
    }
  }

  function FallingCount(s: seq<Letter>): nat {
    if s == [] then 0 else (if s[0].v > 0.0 then 1 else 0) + FallingCount(s[1..])
  }

  lemma {:induction false} ShootCount(s: seq<Letter>, k: nat)
    requires k < |s| && s[k].v > 0.0
    ensures FallingCount(s[k := Shoot(s[k])]) == FallingCount(s) - 1
  {
    var t := s[k := Shoot(s[k])];
    if k == 0 {
      assert t[1..] == s[1..];
    } else {
      ShootCount(s[1..], k - 1);
      assert t[1..] == s[1..][k - 1 := Shoot(s[k])];
    }
  }

  // ----- how long a letter lives, counted in updates

  /** A letter that has seen age updates: half a pixel down each, or three pixels up since it was shot. */
  predicate Flies(l: Letter, age: int) {
    && 0 <= age && 0.0 <= l.x <= 192.0 && 3.0 * age as real + l.x <= 1344.0
    && ((l.v == 0.5 && 2.0 * l.x == age as real) || l.v == -3.0)
  }

  /** A falling letter misses with its 385th update, a shot one never does; only shot ones are hits. */
  lemma Verdict(l: Letter, age: int)
    requires Flies(l, age)
    ensures LeftBottom(Moved(l)) <==> l.v == 0.5 && age >= 384
    ensures LeftTop(Moved(l)) <==> l.v == -3.0 && l.x < 3.0
    ensures !Gone(Moved(l)) ==> Flies(Moved(l), age + 1)
  {
    if l.v == 0.5 {
      assert 2.0 * Moved(l).x == (age + 1) as real;
      assert age + 1 <= 384 <==> (age + 1) as real <= 384.2;
    }
  }

  /** Updates at which the letters were created, newest first, at least 33 updates apart. */
  ghost predicate Timed(s: seq<Letter>, births: seq<int>, updates: int, latest: int) {
    && |births| == |s| && latest <= updates
    && forall i :: 0 <= i < |s| ==> Flies(s[i], updates - births[i]) && births[i] <= latest - 33 * i
  }

  ghost predicate Spread(s: seq<Letter>, updates: int, latest: int) {
    exists births :: Timed(s, births, updates, latest)
  }

  /** However the keys are played, letters born that far apart never number more than fourteen. */
  lemma FourteenAtMost(s: seq<Letter>, updates: int, latest: int)
    requires Spread(s, updates, latest)
    ensures |s| <= 14
  {
    var births :| Timed(s, births, updates, latest);
    if s != [] {
      var k := |s| - 1;
      assert Flies(s[k], updates - births[k]) && births[k] <= latest - 33 * k;
    }
  }

  lemma SpreadCreate(s: seq<Letter>, l: Letter, updates: int, latest: int)
    requires s == [] || (Spread(s, updates, latest) && latest + 33 <= updates)
    requires l.x == 0.0 && l.v == 0.5
    ensures Spread([l] + s, updates, updates)
  {
    var births: seq<int> := [];
    if s != [] {
      births :| Timed(s, births, updates, latest);
    }
    var t, bs := [l] + s, [updates] + births;
    forall i | 0 <= i < |t|
      ensures Flies(t[i], updates - bs[i]) && bs[i] <= updates - 33 * i
    {
      if i > 0 {
        assert t[i] == s[i - 1] && bs[i] == births[i - 1] && births[i - 1] <= latest - 33 * (i - 1);
      }
    }
    assert Timed(t, bs, updates, updates);
  }

  function Survivors(s: seq<Letter>, births: seq<int>): seq<int>
    requires |s| == |births|
  {
    if s == [] then [] else (if Gone(Moved(s[0])) then [] else [births[0]]) + Survivors(s[1..], births[1..])
  }

  lemma {:induction false} TimedAdvance(s: seq<Letter>, births: seq<int>, updates: int, latest: int)
    requires Timed(s, births, updates, latest) && |births| == |s|
    ensures Timed(Advance(s), Survivors(s, births), updates + 1, latest)
  {
    hide Timed, Flies, Moved, Gone;
    TimedHead(s, births, updates, latest);
    if s != [] {
      TimedTail(s, births, updates, latest);
      TimedAdvance(s[1..], births[1..], updates, latest - 33);
      var t, bs := Advance(s[1..]), Survivors(s[1..], births[1..]);
      if Gone(Moved(s[0])) {
        assert Advance(s) == t && Survivors(s, births) == bs;
        TimedLater(t, bs, updates + 1, latest);
      } else {
        TimedCons(Moved(s[0]), births[0], t, bs, updates + 1, latest);
      }
    }
  }

  lemma TimedHead(s: seq<Letter>, births: seq<int>, updates: int, latest: int)
    requires Timed(s, births, updates, latest)
    ensures latest <= updates && |births| == |s|
    ensures s == [] ==> Timed([], [], updates + 1, latest)
    ensures s != [] && !Gone(Moved(s[0])) ==>
      births[0] <= latest && Flies(Moved(s[0]), updates + 1 - births[0])
  {
    if s != [] {
      hide Gone, Moved, Flies;
      assert Flies(s[0], updates - births[0]) && births[0] <= latest - 33 * 0;
      Verdict(s[0], updates - births[0]);
      assert updates - births[0] + 1 == updates + 1 - births[0];
    }
  }

  lemma TimedLater(s: seq<Letter>, births: seq<int>, updates: int, latest: int)
    requires Timed(s, births, updates, latest - 33) && latest <= updates
    ensures Timed(s, births, updates, latest)
  {
    hide Flies;
  }

  lemma TimedTail(s: seq<Letter>, births: seq<int>, updates: int, latest: int)
    requires Timed(s, births, updates, latest) && s != []
    ensures |births| == |s| && Timed(s[1..], births[1..], updates, latest - 33)
  {
    hide Flies;
    forall i | 0 <= i < |s| - 1
      ensures Flies(s[1..][i], updates - births[1..][i]) && births[1..][i] <= latest - 33 - 33 * i
    {
      assert births[i + 1] <= latest - 33 * (i + 1);
    }
  }

  lemma TimedCons(l: Letter, birth: int, s: seq<Letter>, births: seq<int>, updates: int, latest: int)
    requires Timed(s, births, updates, latest - 33) && Flies(l, updates - birth) && birth <= latest <= updates
    ensures Timed([l] + s, [birth] + births, updates, latest)
  {
    hide Flies;
    var t, bs := [l] + s, [birth] + births;
    forall i | 0 <= i < |t|
      ensures Flies(t[i], updates - bs[i]) && bs[i] <= latest - 33 * i
    {
      if i > 0 {
        assert t[i] == s[i - 1] && bs[i] == births[i - 1] && births[i - 1] <= latest - 33 - 33 * (i - 1);
      }
    }
  }

  lemma SpreadAdvance(s: seq<Letter>, updates: int, latest: int)
    requires Spread(s, updates, latest)
    ensures Spread(Advance(s), updates + 1, latest)
  {
    var births :| Timed(s, births, updates, latest);
    TimedAdvance(s, births, updates, latest);
  }

  lemma SpreadVolley(s: seq<Letter>, keys: seq<bool>, updates: int, latest: int)
    requires |keys| == 26 && Spread(s, updates, latest)
    ensures Spread(Volley(s, keys), updates, latest)
  {
    var births :| Timed(s, births, updates, latest);
    assert Timed(Volley(s, keys), births, updates, latest);
  }
}
