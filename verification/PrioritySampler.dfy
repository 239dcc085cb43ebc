/**
 PrioritySampler (x/priority_sampler.go) under concurrency: any number of sampling passes over the delegates share one
 bitmap of finished samplers, read word by word and changed by compare-and-swap. Every atomic operation is one step.
 */
module PrioritySampler {
  datatype Decision = Decision(sample: bool, retryable: bool)

  /** Where a call of trySampling has got to. */
  datatype Stage =
    | Testing                              // about to read the bit of delegate i
    | Calling                              // about to call delegate i
    | Loading(answer: Decision)            // delegate i is finished; about to load its word
    | Swapping(answer: Decision, value: Word)
    | Over(result: Decision)

  datatype Pass = Pass(i: nat, retryable: bool, stage: Stage)

  /**
   count is the number of delegates; marked and refused are history: bits set, and delegates that asked not to be called
   again.
   */
  datatype State = State(count: nat, words: seq<Word>, passes: map<nat, Pass>, marked: set<nat>, refused: set<nat>)

  /** A 64-bit word, by its bits. */
  type Word = bits: seq<bool> | |bits| == 64 witness seq(64, _ => false)

  const ZERO: Word := seq(64, _ => false)

  function Mask(k: nat): (m: Word) { seq(64, i => i == k) }

  function And(v: Word, w: Word): (r: Word) { seq(64, i requires 0 <= i < 64 => v[i] && w[i]) }

  function Or(v: Word, w: Word): (r: Word) { seq(64, i requires 0 <= i < 64 => v[i] || w[i]) }

  predicate Has(word: Word, k: nat)
    requires k < 64
  {
    And(word, Mask(k)) == Mask(k)
  }

  /** isSamplerRetryable, which is true when the sampler is finished. */
  predicate Bit(words: seq<Word>, index: nat)
  {
    index / 64 < |words| && Has(words[index / 64], index % 64)
  }

  function NewWords(count: nat): (words: seq<Word>) { seq(1 + count / 64, _ => ZERO) }

  function Start(count: nat): (s: State) { State(count, NewWords(count), map[], {}, {}) }

  datatype Action = Begin(p: nat) | Test(p: nat) | Call(p: nat, answer: Decision) | Load(p: nat) | Swap(p: nat)

  predicate Enabled(s: State, a: Action)
  {
    if a.Begin? then a.p !in s.passes
    else
      a.p in s.passes
      && var pass := s.passes[a.p];
         match a
         case Begin(_) => true
         case Test(_) => pass.stage.Testing?
         case Call(_, _) => pass.stage.Calling?
         case Load(_) => pass.stage.Loading? && pass.i / 64 < |s.words|
         case Swap(_) => pass.stage.Swapping? && pass.i / 64 < |s.words|
  }

  /** The rest of the loop body once delegate i has answered and, if need be, is marked. */
  function Proceed(pass: Pass, answer: Decision): (r: Pass)
  {
    if answer.sample then pass.(stage := Over(answer))
    else Pass(pass.i + 1, pass.retryable || answer.retryable, Testing)
  }

  function Next(s: State, a: Action): (r: State)
    requires Enabled(s, a)
  {
    if a.Begin? then s.(passes := s.passes[a.p := Pass(0, false, Testing)])
    else
      var pass := s.passes[a.p];
      match a
      case Begin(_) => s
      case Test(_) =>
        var next := if pass.i >= s.count then pass.(stage := Over(Decision(false, pass.retryable)))
                    else if Bit(s.words, pass.i) then pass.(i := pass.i + 1)
                    else pass.(stage := Calling);
        s.(passes := s.passes[a.p := next])
      case Call(_, answer) =>
        if answer.retryable then s.(passes := s.passes[a.p := Proceed(pass, answer)])
        else s.(passes := s.passes[a.p := pass.(stage := Loading(answer))], refused := s.refused + {pass.i})
      case Load(_) =>
        var next := pass.(stage := Swapping(pass.stage.answer, s.words[pass.i / 64]));
        s.(passes := s.passes[a.p := next])
      case Swap(_) =>
        var at := pass.i / 64;
        if s.words[at] != pass.stage.value then s.(passes := s.passes[a.p := pass.(stage := Loading(pass.stage.answer))])
        else
          s.(words := s.words[at := Or(pass.stage.value, Mask(pass.i % 64))], marked := s.marked + {pass.i},
             passes := s.passes[a.p := Proceed(pass, pass.stage.answer)])
  }

  ghost predicate Runs(s: State, acts: seq<Action>, t: State)
    decreases |acts|
  {
    if acts == [] then s == t else Enabled(s, acts[0]) && Runs(Next(s, acts[0]), acts[1..], t)
  }

  // ----- the bitmap is a set -----

  /** Testing with a mask looks at one bit. */
  lemma HasBit(word: Word, k: nat)
    requires k < 64
    ensures Has(word, k) <==> word[k]
  {
    if word[k] {
      assert And(word, Mask(k)) == Mask(k);
    } else {
      assert !And(word, Mask(k))[k] && Mask(k)[k];
    }
  }

  /** Setting a bit in one word sets one index and no other. */
  lemma SetBit(words: seq<Word>, i: nat, j: nat)
    requires i / 64 < |words|
    ensures Bit(words[i / 64 := Or(words[i / 64], Mask(i % 64))], j) <==> Bit(words, j) || j == i
  {
  }

  ghost predicate Refines(words: seq<Word>, marked: set<nat>) { forall j: nat :: Bit(words, j) <==> j in marked }

  /** A pass knows that the delegates behind it are finished, unless one asked to be called again. */
  ghost predicate PassOk(s: State, pass: Pass)
  {
    pass.i <= s.count
    && (pass.stage != Testing && !pass.stage.Over? ==> pass.i < s.count)
    && (pass.stage.Loading? || pass.stage.Swapping? ==> pass.i in s.refused && !pass.stage.answer.retryable)
    && (!pass.retryable ==> forall j: nat :: j < pass.i ==> j in s.marked)
    && (pass.stage.Over? && !pass.stage.result.sample ==>
          pass.stage.result.retryable == pass.retryable && pass.i == s.count)
  }

  ghost predicate Marking(pass: Pass, j: nat) { pass.i == j && (pass.stage.Loading? || pass.stage.Swapping?) }

  ghost predicate Inv(s: State)
  {
    |s.words| == 1 + s.count / 64 && Refines(s.words, s.marked)
    && (forall j <- s.marked :: j in s.refused && j < s.count)
    && (forall p <- s.passes :: PassOk(s, s.passes[p]))
    && (forall j <- s.refused :: j in s.marked || exists p <- s.passes :: Marking(s.passes[p], j))
  }

  lemma StartInv(count: nat)
    ensures Inv(Start(count))
  {
    forall j: nat ensures !Bit(NewWords(count), j) {
      HasBit(ZERO, j % 64);
    }
  }

  lemma SwapRefines(s: State, p: nat)
    requires Inv(s) && Enabled(s, Swap(p))
    ensures var t := Next(s, Swap(p)); |t.words| == |s.words| && Refines(t.words, t.marked)
  {
  }

  lemma PassesStep(s: State, a: Action)
    requires Inv(s) && Enabled(s, a)
    ensures var t := Next(s, a); forall p <- t.passes :: PassOk(t, t.passes[p])
  {
  }

  lemma RefusedStep(s: State, a: Action)
    requires Inv(s) && Enabled(s, a)
    ensures var t := Next(s, a);
            forall j <- t.refused :: j in t.marked || exists p <- t.passes :: Marking(t.passes[p], j)
  {
    hide Bit, Mask, Or, PassOk;
    var t := Next(s, a);
    forall j <- t.refused ensures j in t.marked || exists p <- t.passes :: Marking(t.passes[p], j) {
      if a.Call? && j == s.passes[a.p].i {
        assert Marking(t.passes[a.p], j) || j in s.refused;
      }
      if j in s.refused && j !in s.marked {
        var p :| p in s.passes && Marking(s.passes[p], j);
        assert p != a.p ==> t.passes[p] == s.passes[p];
        assert p in t.passes && (Marking(t.passes[p], j) || j in t.marked);
      }
    }
  }

  lemma InvStep(s: State, a: Action)
    requires Inv(s) && Enabled(s, a)
    ensures Inv(Next(s, a))
  {
    PassesStep(s, a);
    RefusedStep(s, a);
    if a.Swap? {
      assert PassOk(s, s.passes[a.p]);
      SwapRefines(s, a.p);
    }
  }

  // ----- every run -----

  /**
   The bitmap is exactly the growing set of delegates marked as finished, all of which asked not to be called again; the
   delegates that asked and are not marked yet are those some pass is marking.
   */
  lemma {:induction false} BitmapRefinesSet(s: State, acts: seq<Action>, t: State)
    requires Inv(s) && Runs(s, acts, t)
    ensures Inv(t) && s.marked <= t.marked && s.refused <= t.refused && t.count == s.count
    decreases |acts|
  {
    hide Inv, Bit;
    if acts != [] {
      InvStep(s, acts[0]);
      BitmapRefinesSet(Next(s, acts[0]), acts[1..], t);
    }
  }

  /** A result that is neither positive nor retryable means that every delegate is finished. */
  lemma NegativeIsFinal(count: nat, acts: seq<Action>, s: State, p: nat)
    requires Runs(Start(count), acts, s) && p in s.passes && s.passes[p].stage == Over(Decision(false, false))
    ensures forall j: nat :: j < count ==> Bit(s.words, j)
  {
    StartInv(count);
    BitmapRefinesSet(Start(count), acts, s);
    assert PassOk(s, s.passes[p]);
  }

  /** The pass has not read the bit of delegate j, or is past it. */
  predicate NotCommitted(s: State, p: nat, j: nat)
  {
    p !in s.passes || s.passes[p].i != j || s.passes[p].stage.Testing? || s.passes[p].stage.Over?
  }

  /** Once delegate j is marked, no pass that reads its bit afterwards calls it, at any later point of any run. */
  lemma {:induction false} NeverCalledAgain(s: State, acts: seq<Action>, t: State, p: nat, j: nat)
    requires Inv(s) && Runs(s, acts, t) && j in s.marked && NotCommitted(s, p, j)
    ensures NotCommitted(t, p, j)
    ensures forall answer: Decision :: Enabled(t, Call(p, answer)) ==> t.passes[p].i != j
    decreases |acts|
  {
    if acts != [] {
      var next := Next(s, acts[0]);
      InvStep(s, acts[0]);
      hide Bit, Runs;
      assert Bit(s.words, j);
      assert NotCommitted(next, p, j);
      hide Inv, Next, NotCommitted;
      assert j in next.marked;
      NeverCalledAgain(next, acts[1..], t, p, j);
    }
  }

  /** The pass has a positive answer from delegate i and will return it, whatever the others do. */
  predicate Settled(s: State, p: nat, i: nat, answer: Decision)
  {
    p in s.passes && s.passes[p].i == i
    && match s.passes[p].stage
       case Loading(a) => a == answer
       case Swapping(a, _) => a == answer
       case Over(result) => result == answer
       case _ => false
  }

  /**
   A positive answer ends the pass: no other delegate is called and the answer is the result, in any run that follows.
   */
  lemma {:induction false} FirstPositiveWins(s: State, acts: seq<Action>, t: State, p: nat, i: nat, answer: Decision)
    requires answer.sample && Settled(s, p, i, answer) && Runs(s, acts, t)
    ensures Settled(t, p, i, answer) && !t.passes[p].stage.Testing? && !t.passes[p].stage.Calling?
    decreases |acts|
  {
    if acts != [] {
      SettledStep(s, acts[0], p, i, answer);
      hide Settled, Next;
      FirstPositiveWins(Next(s, acts[0]), acts[1..], t, p, i, answer);
    }
  }

  lemma SettledStep(s: State, a: Action, p: nat, i: nat, answer: Decision)
    requires answer.sample && Enabled(s, a)
    requires Settled(s, p, i, answer) || (a == Call(p, answer) && s.passes[p].i == i)
    ensures Settled(Next(s, a), p, i, answer)
  {
    hide Bit, Mask, Or;
  }

  // ----- nobody is left out -----

  /** The delegate a step of pass p deals with: one it finds finished, or one it calls. */
  function Dealt(s: State, a: Action, p: nat): (handled: set<nat>)
    requires Enabled(s, a)
  {
    if a.p != p || a.Begin? then {}
    else
      var i := s.passes[p].i;
      if a.Call? || (a.Test? && i < s.count && Bit(s.words, i)) then {i} else {}
  }

  function Handled(s: State, acts: seq<Action>, p: nat): (handled: set<nat>)
    decreases |acts|
  {
    if acts == [] || !Enabled(s, acts[0]) then {} else Dealt(s, acts[0], p) + Handled(Next(s, acts[0]), acts[1..], p)
  }

  /** Pass p has called a delegate that said no for now. */
  predicate Postponed(acts: seq<Action>, p: nat)
  {
    exists k :: 0 <= k < |acts| && acts[k].Call? && acts[k].p == p && !acts[k].answer.sample && acts[k].answer.retryable
  }

  /** The pass has dealt with every delegate in front of it, and with this one too if it has its answer. */
  ghost predicate Covered(s: State, p: nat, done: set<nat>)
  {
    p in s.passes ==>
      var pass := s.passes[p];
      (forall j: nat :: j < pass.i ==> j in done)
      && (pass.stage.Loading? || pass.stage.Swapping? ==> pass.i in done)
      && (pass.stage.Over? && !pass.stage.result.sample ==> pass.i >= s.count && pass.stage.result.retryable == pass.retryable)
  }

  lemma CoveredStep(s: State, a: Action, p: nat, done: set<nat>)
    requires Enabled(s, a) && Covered(s, p, done)
    ensures Covered(Next(s, a), p, done + Dealt(s, a, p))
  {
    hide Bit, Or, Mask;
  }

  lemma {:induction false} CoveredRun(s: State, acts: seq<Action>, t: State, p: nat, done: set<nat>)
    requires Runs(s, acts, t) && Covered(s, p, done)
    ensures Covered(t, p, done + Handled(s, acts, p))
    decreases |acts|
  {
    if acts == [] {
      assert done + {} == done;
    } else {
      CoveredStep(s, acts[0], p, done);
      hide Covered, Next, Enabled, Dealt;
      CoveredRun(Next(s, acts[0]), acts[1..], t, p, done + Dealt(s, acts[0], p));
      assert done + Dealt(s, acts[0], p) + Handled(Next(s, acts[0]), acts[1..], p)
          == done + (Dealt(s, acts[0], p) + Handled(Next(s, acts[0]), acts[1..], p));
    }
  }

  /** The pass asks for another one exactly if a delegate it called did. */
  lemma {:induction false} PostponedRun(s: State, acts: seq<Action>, t: State, p: nat)
    requires Inv(s) && Runs(s, acts, t) && p in s.passes
    ensures p in t.passes
    ensures !(t.passes[p].stage.Over? && t.passes[p].stage.result.sample) ==>
              (t.passes[p].retryable <==> s.passes[p].retryable || Postponed(acts, p))
    decreases |acts|
  {
    if acts != [] {
      var next := Next(s, acts[0]);
      InvStep(s, acts[0]);
      assert PassOk(s, s.passes[p]);
      PostponedStep(s, acts[0], p);
      hide Inv, Next, Enabled;
      PostponedRun(next, acts[1..], t, p);
      hide PassOk;
      assert Postponed(acts, p) <==> Postponed([acts[0]], p) || Postponed(acts[1..], p) by {
        forall k | 0 < k < |acts| ensures acts[k] == acts[1..][k - 1] {}
        assert [acts[0]][0] == acts[0];
        if Postponed(acts[1..], p) {
          var k :| 0 <= k < |acts[1..]| && acts[1..][k].Call? && acts[1..][k].p == p && !acts[1..][k].answer.sample
                   && acts[1..][k].answer.retryable;
          assert acts[k + 1] == acts[1..][k];
        }
      }
    }
  }

  lemma PostponedStep(s: State, a: Action, p: nat)
    requires Enabled(s, a) && p in s.passes && PassOk(s, s.passes[p])
    ensures var t := Next(s, a);
            p in t.passes && (t.passes[p].retryable <==> s.passes[p].retryable || Postponed([a], p))
  {
    hide Bit, Or, Mask;
    assert [a][0] == a;
  }

  /**
   A pass that ends without a positive answer has dealt with every delegate, by finding it finished or by calling it, and
   asks for another pass exactly if one of those it called did.
   */
  lemma NobodyLeftOut(count: nat, acts: seq<Action>, s: State, p: nat)
    requires Runs(Start(count), acts, s) && p in s.passes && s.passes[p].stage.Over? && !s.passes[p].stage.result.sample
    ensures forall j: nat :: j < count ==> j in Handled(Start(count), acts, p)
    ensures s.passes[p].stage.result.retryable <==> Postponed(acts, p)
  {
    StartInv(count);
    BitmapRefinesSet(Start(count), acts, s);
    CoveredRun(Start(count), acts, s, p, {});
    assert {} + Handled(Start(count), acts, p) == Handled(Start(count), acts, p);
    PostponedFromStart(Start(count), acts, s, p);
  }

  lemma {:induction false} PostponedFromStart(s: State, acts: seq<Action>, t: State, p: nat)
    requires Inv(s) && Runs(s, acts, t) && p !in s.passes && p in t.passes
    ensures !(t.passes[p].stage.Over? && t.passes[p].stage.result.sample) ==>
              (t.passes[p].retryable <==> Postponed(acts, p))
    decreases |acts|
  {
    if acts != [] {
      var a, next := acts[0], Next(s, acts[0]);
      InvStep(s, a);
      assert !(a.Call? && a.p == p);
      hide Inv, Bit, PassOk;
      if p in next.passes {
        assert !next.passes[p].retryable;
        PostponedRun(next, acts[1..], t, p);
      } else {
        PostponedFromStart(next, acts[1..], t, p);
      }
      hide Runs, Next;
      assert Postponed(acts, p) <==> Postponed(acts[1..], p) by {
        forall k | 0 < k < |acts| ensures acts[k] == acts[1..][k - 1] {}
        if Postponed(acts[1..], p) {
          var k :| 0 <= k < |acts[1..]| && acts[1..][k].Call? && acts[1..][k].p == p && !acts[1..][k].answer.sample
                   && acts[1..][k].answer.retryable;
          assert acts[k + 1] == acts[1..][k];
        }
      }
    }
  }

  // ----- nobody is held up -----

  /** Steps a pass is at most away from its end, lost races aside. */
  function StepsLeft(s: State, pass: Pass): (n: int)
  {
    4 * (s.count - pass.i)
    + match pass.stage case Testing => 1 case Calling => 0 case Loading(_) => -1 case Swapping(_, _) => -2 case Over(_) => -3
  }

  /** The swap of pass p fails: another pass has changed the word since it was loaded. */
  predicate LosesRace(s: State, p: nat)
  {
    p in s.passes && s.passes[p].stage.Swapping? && s.passes[p].i / 64 < |s.words|
    && s.words[s.passes[p].i / 64] != s.passes[p].stage.value
  }

  /**
   A pass that is not over can take a step, whatever the others are doing, and each of its steps brings it nearer to its
   end, except for a swap that fails because another pass has set a bit meanwhile.
   */
  lemma PassGoesOn(s: State, p: nat, answer: Decision)
    requires Inv(s) && p in s.passes && !s.passes[p].stage.Over?
    ensures exists a: Action :: a.p == p && Enabled(s, a)
    ensures forall a: Action :: a.p == p && Enabled(s, a) && !(a.Swap? && LosesRace(s, p)) ==>
              StepsLeft(Next(s, a), Next(s, a).passes[p]) < StepsLeft(s, s.passes[p])
  {
    assert PassOk(s, s.passes[p]);
    hide Bit, Or, Mask, Refines, PassOk;
    match s.passes[p].stage
    case Testing => assert Enabled(s, Test(p));
    case Calling => assert Enabled(s, Call(p, answer));
    case Loading(_) => assert Enabled(s, Load(p));
    case Swapping(_, _) => assert Enabled(s, Swap(p));
  }
}
