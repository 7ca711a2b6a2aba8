/** The reset button: settings are erased once it has been held for ten seconds, as both
    firmware loops decide it from samples of the pin and of a 32-bit millisecond clock. */
module Button {

  const WORD32: int := 0x1_0000_0000
  const BUTTON_PRESS_TIMEOUT: int := 10000    // milliseconds

  /** One pass of the loop: the pin, and the true time in milliseconds since power-on. */
  datatype Sample = Sample(pressed: bool, t: nat)

  /** button_pressed and button_pressed_start. */
  datatype State = State(pressed: bool, start: nat)

  function Millis(t: nat): nat {
    t % WORD32
  }

  function Sub32(a: nat, b: nat): nat {
    (a - b) % WORD32
  }

  function Next(s: State, x: Sample): State {
    if !x.pressed then s.(pressed := false)
    else if !s.pressed then State(true, Millis(x.t))
    else s
  }

  predicate Erases(s: State, x: Sample) {
    x.pressed && s.pressed && Sub32(Millis(x.t), s.start) >= BUTTON_PRESS_TIMEOUT
  }

  function After(xs: seq<Sample>): State {
    if xs == [] then State(false, 0) else Next(After(xs[..|xs| - 1]), xs[|xs| - 1])
  }

  /** Where the run of pressed samples that ends at i began. */
  function RunStart(xs: seq<Sample>, i: nat): (j: nat)
    requires i < |xs| && xs[i].pressed
    ensures j <= i && forall k :: j <= k <= i ==> xs[k].pressed
    ensures j > 0 ==> !xs[j - 1].pressed
  {
    if i == 0 || !xs[i - 1].pressed then i else RunStart(xs, i - 1)
  }

  predicate Ordered(xs: seq<Sample>) {
    forall i, j :: 0 <= i <= j < |xs| ==> xs[i].t <= xs[j].t
  }

  function Elapsed(xs: seq<Sample>, i: nat): int
    requires i < |xs| && xs[i].pressed
  {
    xs[i].t - xs[RunStart(xs, i)].t
  }

  lemma {:induction false} StateInRun(xs: seq<Sample>, i: nat)
    requires i < |xs|
    ensures After(xs[..i + 1]).pressed == xs[i].pressed
    ensures xs[i].pressed ==> After(xs[..i + 1]).start == Millis(xs[RunStart(xs, i)].t)
  {
    assert xs[..i + 1][..i] == xs[..i];
    if i > 0 {
      StateInRun(xs, i - 1);
    }
  }

  lemma Difference(a: nat, b: nat)
    requires a >= b
    ensures Sub32(Millis(a), Millis(b)) == (a - b) % WORD32
  {
    var qa, qb := a / WORD32, b / WORD32;
    var d := Millis(a) - Millis(b);
    assert a - b == (qa - qb) * WORD32 + d;
    Congruent(d, qa - qb);
  }

  lemma Congruent(d: int, q: int)
    ensures (q * WORD32 + d) % WORD32 == d % WORD32
  {
  }

  /** A sample erases exactly when it ends a press run whose length, seen through the
      32-bit clock, is ten seconds or more. */
  lemma ErasesExactly(xs: seq<Sample>, i: nat)
    requires i < |xs| && Ordered(xs)
    ensures Erases(After(xs[..i]), xs[i])
            <==> xs[i].pressed && Elapsed(xs, i) % 0x1_0000_0000 >= 10000
  {
    if xs[i].pressed {
      if i > 0 {
        StateInRun(xs, i - 1);
      }
      var j := RunStart(xs, i);
      if j < i {
        assert RunStart(xs, i - 1) == j;
        Difference(xs[i].t, xs[j].t);
      }
    }
  }

  /** For presses shorter than 2^32 ms, clock wrap or not, that is the true ten seconds. */
  lemma ErasesAfterTenSeconds(xs: seq<Sample>, i: nat)
    requires i < |xs| && Ordered(xs)
    requires xs[i].pressed ==> Elapsed(xs, i) < 0x1_0000_0000
    ensures Erases(After(xs[..i]), xs[i]) <==> xs[i].pressed && Elapsed(xs, i) >= 10000
  {
    ErasesExactly(xs, i);
  }

  /** However long the press: when the loop comes round often enough, the first erase comes
      at the first sample ten seconds or more into the press. */
  lemma FirstEraseIsPrompt(xs: seq<Sample>, i: nat)
    requires i < |xs| && Ordered(xs) && xs[i].pressed
    requires forall k :: 0 < k < |xs| ==> xs[k].t - xs[k - 1].t <= 0x1_0000_0000 - 10000
    requires forall k :: 0 <= k < i ==> !Erases(After(xs[..k]), xs[k])
    ensures Erases(After(xs[..i]), xs[i]) <==> Elapsed(xs, i) >= 10000
    ensures Elapsed(xs, i) < 0x1_0000_0000
  {
    NotYet(xs, i);
    ErasesAfterTenSeconds(xs, i);
  }

  lemma {:induction false} NotYet(xs: seq<Sample>, i: nat)
    requires i < |xs| && Ordered(xs) && xs[i].pressed
    requires forall k :: 0 < k < |xs| ==> xs[k].t - xs[k - 1].t <= 0x1_0000_0000 - 10000
    requires forall k :: 0 <= k < i ==> !Erases(After(xs[..k]), xs[k])
    ensures Elapsed(xs, i) < 0x1_0000_0000
    ensures !Erases(After(xs[..i]), xs[i]) ==> Elapsed(xs, i) < 10000
  {
    hide Erases, After;
    ErasesExactly(xs, i);
    if RunStart(xs, i) < i {
      NotYet(xs, i - 1);
      assert xs[i].t - xs[i - 1].t <= 0x1_0000_0000 - 10000;
    }
  }
}
