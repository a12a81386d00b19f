/**
 * dwa_control: every velocity command of the dynamic window, on a grid of
 * dv by dyaw steps, is simulated and scored; turn rates in the dead band
 * around zero are skipped; the command of strictly least finite cost below
 * 1000 wins, and a fixed turn-in-place command is sent when no command
 * scored 999 or less.
 */
module DwaSelection {
  import opened Angles
  import opened DwaModel
  import opened DwaPathCost

  /** A cost that may be infinite: calc_l_ob_cost returns infinity on a predicted collision. */
  datatype Cost = Fin(value: real) | Inf

  /** calc_l_ob_cost, whose clearance geometry is not part of this model. */
  type ObstacleCost = seq<Status> -> Cost

  /** Everything one control step depends on. */
  datatype Env = Env(
    geo: Geometry, p: Params, toGoal: ToGoalCost, obstacle: ObstacleCost,
    robot: Status, path: seq<PathPoint>)

  /** The stepped loops terminate and the look-ahead index is defined. */
  predicate Ready(e: Env)
  {
    PositiveSteps(e.p) && |e.path| > 0
  }

  /** The final cost of a command: path cost plus speed cost plus obstacle cost. */
  function Eval(e: Env, c: Speed): Cost
    requires Ready(e)
  {
    var traj := Rollout(e.geo, e.p, c.v, c.omega);
    match e.obstacle(traj)
    case Inf => Inf
    case Fin(ob) => Fin(PathCost(e.toGoal, e.p, traj, e.robot, e.path) + SpeedCost(e.p, traj) + ob)
  }

  /** The scored terms of one command, as dwa_control computes them. */
  method Evaluate(e: Env, v: real, y: real) returns (cost: Cost)
    requires Ready(e)
    ensures cost == Eval(e, Speed(v, y))
  {
    var traj := CalcLTraj(e.geo, e.p, v, y);
    var speedCost := SpeedCost(e.p, traj);
    var obCost := e.obstacle(traj);
    var toPathCost := CalcToGPathCost(e.toGoal, e.p, traj, e.robot, e.path);
    if obCost.Inf? {
      cost := Inf;
    } else {
      cost := Fin(toPathCost + speedCost + obCost.value);
    }
  }

  /** exception_omega: a tenth of the turn-rate limit. */
  function ExceptionOmega(p: Params): real
  {
    p.maxYawrate * 0.10
  }

  /** The turn rates dwa_control skips. */
  predicate DeadBand(p: Params, y: real)
  {
    (-ExceptionOmega(p) < y && y < 0.0) || (0.0 < y && y < ExceptionOmega(p))
  }

  /** The dead band holds exactly the non-zero turn rates of magnitude below exception_omega. */
  lemma DeadBandMagnitude(p: Params, y: real)
    ensures DeadBand(p, y) <==> 0.0 < Abs(y) < ExceptionOmega(p)
    ensures !DeadBand(p, 0.0)
  {
  }

  /** The values lo, lo + step, lo + 2 step, ... up to hi, in the order a stepped loop visits them. */
  function Steps(lo: real, hi: real, step: real): seq<real>
    requires step > 0.0
    decreases Remaining(lo, hi, step)
  {
    if lo <= hi then
      RemainingDecreases(lo, hi, step);
      [lo] + Steps(lo + step, hi, step)
    else []
  }

  /** Every visited value lies in [lo, hi], and the first is lo itself when there is one. */
  lemma {:induction false} StepsInRange(lo: real, hi: real, step: real)
    requires step > 0.0
    ensures forall x :: x in Steps(lo, hi, step) ==> lo <= x <= hi
    ensures |Steps(lo, hi, step)| == 0 <==> lo > hi
    ensures lo <= hi ==> Steps(lo, hi, step)[0] == lo
    decreases Remaining(lo, hi, step)
  {
    if lo <= hi {
      RemainingDecreases(lo, hi, step);
      StepsInRange(lo + step, hi, step);
    }
  }

  /** The commands the inner loop scores for speed v: turn rates ys outside the dead band. */
  function Row(p: Params, v: real, ys: seq<real>): seq<Speed>
  {
    if |ys| == 0 then []
    else (if DeadBand(p, ys[0]) then [] else [Speed(v, ys[0])]) + Row(p, v, ys[1..])
  }

  /** The commands both loops score, speed by speed. */
  function Grid(p: Params, vs: seq<real>, ys: seq<real>): seq<Speed>
  {
    if |vs| == 0 then [] else Row(p, vs[0], ys) + Grid(p, vs[1..], ys)
  }

  /** The commands dwa_control scores, in the order it scores them. */
  function Candidates(p: Params, dw: Dw): seq<Speed>
    requires PositiveSteps(p)
  {
    Grid(p, Steps(dw.minV, dw.maxV, p.dv), Steps(dw.minOmega, dw.maxOmega, p.dyaw))
  }

  lemma {:induction false} RowMembers(p: Params, v: real, ys: seq<real>)
    ensures forall c :: c in Row(p, v, ys) <==> c.v == v && c.omega in ys && !DeadBand(p, c.omega)
  {
    if |ys| > 0 {
      RowMembers(p, v, ys[1..]);
      assert ys == [ys[0]] + ys[1..];
    }
  }

  lemma {:induction false} GridMembers(p: Params, vs: seq<real>, ys: seq<real>)
    ensures forall c :: c in Grid(p, vs, ys) <==> c.v in vs && c.omega in ys && !DeadBand(p, c.omega)
  {
    if |vs| > 0 {
      RowMembers(p, vs[0], ys);
      GridMembers(p, vs[1..], ys);
      assert vs == [vs[0]] + vs[1..];
    }
  }

  /**
   * A command is scored exactly when its speed and turn rate are points of
   * the stepped grid and its turn rate is outside the dead band; every
   * scored command lies in the dynamic window.
   */
  lemma CandidatesInWindow(p: Params, dw: Dw)
    requires PositiveSteps(p)
    ensures forall c :: c in Candidates(p, dw) <==>
      c.v in Steps(dw.minV, dw.maxV, p.dv) && c.omega in Steps(dw.minOmega, dw.maxOmega, p.dyaw)
      && !DeadBand(p, c.omega)
    ensures forall c :: c in Candidates(p, dw) ==> InWindow(c, dw)
  {
    GridMembers(p, Steps(dw.minV, dw.maxV, p.dv), Steps(dw.minOmega, dw.maxOmega, p.dyaw));
    StepsInRange(dw.minV, dw.maxV, p.dv);
    StepsInRange(dw.minOmega, dw.maxOmega, p.dyaw);
  }

  /** The running minimum of dwa_control: min_cost and best_output. */
  datatype Choice = Choice(minCost: real, best: Speed)

  /** The running minimum before any command is scored. */
  const Initial: Choice := Choice(1000.0, Speed(0.0, 0.0))

  /** The command sent when no command scored 999 or less: turn in place. */
  const Fallback: Speed := Speed(0.0, 0.2)

  const FallbackAbove: real := 999.0

  /** One strict-less-than update of the running minimum; an infinite cost never wins. */
  function Consider(ch: Choice, c: Speed, cost: Cost): Choice
  {
    if cost.Fin? && ch.minCost > cost.value then Choice(cost.value, c) else ch
  }

  /** A scoring of commands: Eval for a fixed environment. */
  type Score = Speed -> Cost

  function ScoreOf(e: Env): Score
    requires Ready(e)
  {
    c => Eval(e, c)
  }

  /** The running minimum after scoring the commands cs in order. */
  function Pick(score: Score, cs: seq<Speed>, ch: Choice): Choice
  {
    if |cs| == 0 then ch else Pick(score, cs[1..], Consider(ch, cs[0], score(cs[0])))
  }

  /** The command dwa_control returns. */
  function DwaSelect(e: Env): Speed
    requires Ready(e)
  {
    var ch := Pick(ScoreOf(e), Candidates(e.p, CalcDynamicWindow(e.p, e.robot)), Initial);
    if ch.minCost > FallbackAbove then Fallback else ch.best
  }

  /**
   * Index k of cs holds the first strict minimum among the finite costs,
   * and that cost is below the bound.
   */
  predicate FirstMinimumBelow(score: Score, cs: seq<Speed>, k: int, bound: real)
  {
    && 0 <= k < |cs|
    && score(cs[k]).Fin? && score(cs[k]).value < bound
    && (forall j :: 0 <= j < |cs| && score(cs[j]).Fin? ==> score(cs[k]).value <= score(cs[j]).value)
    && (forall j :: 0 <= j < k ==> score(cs[j]).Inf? || score(cs[k]).value < score(cs[j]).value)
  }

  /** No command of cs has a finite cost below the bound. */
  predicate NoneBelow(score: Score, cs: seq<Speed>, bound: real)
  {
    forall j :: 0 <= j < |cs| && score(cs[j]).Fin? ==> score(cs[j]).value >= bound
  }

  /**
   * Scoring cs from the running minimum ch either leaves ch as it is, when
   * no command costs less than ch.minCost, or ends with the first command
   * of least finite cost and that cost.
   */
  lemma {:induction false} PickSpec(score: Score, cs: seq<Speed>, ch: Choice)
    ensures var r := Pick(score, cs, ch);
      || (r == ch && NoneBelow(score, cs, ch.minCost))
      || (exists k :: FirstMinimumBelow(score, cs, k, ch.minCost) && r == Choice(score(cs[k]).value, cs[k]))
  {
    if |cs| > 0 {
      var cost := score(cs[0]);
      var ch' := Consider(ch, cs[0], cost);
      var tail := cs[1..];
      PickSpec(score, tail, ch');
      var r := Pick(score, cs, ch);
      assert r == Pick(score, tail, ch');
      assert forall j :: 1 <= j < |cs| ==> cs[j] == tail[j - 1];
      if r == ch' && NoneBelow(score, tail, ch'.minCost) {
        if cost.Fin? && ch.minCost > cost.value {
          assert FirstMinimumBelow(score, cs, 0, ch.minCost);
        } else {
          assert NoneBelow(score, cs, ch.minCost);
        }
      } else {
        var k' :| FirstMinimumBelow(score, tail, k', ch'.minCost) && r == Choice(score(tail[k']).value, tail[k']);
        assert FirstMinimumBelow(score, cs, k' + 1, ch.minCost);
      }
    }
  }

  /**
   * What dwa_control returns: the turn-in-place command exactly when no
   * scored command costs 999 or less, and otherwise the first scored
   * command of least finite cost, which lies in the dynamic window, is
   * outside the dead band and is never one of infinite cost.
   */
  lemma DwaSelectSpec(e: Env)
    requires Ready(e)
    ensures var dw := CalcDynamicWindow(e.p, e.robot);
      var cs := Candidates(e.p, dw);
      var out := DwaSelect(e);
      && ((forall j :: 0 <= j < |cs| && Eval(e, cs[j]).Fin? ==> Eval(e, cs[j]).value > FallbackAbove) ==> out == Fallback)
      && (!(forall j :: 0 <= j < |cs| && Eval(e, cs[j]).Fin? ==> Eval(e, cs[j]).value > FallbackAbove) ==>
            exists k :: FirstMinimumBelow(ScoreOf(e), cs, k, Initial.minCost) && out == cs[k]
              && InWindow(out, dw) && !DeadBand(e.p, out.omega) && Eval(e, out).Fin?)
  {
    var dw := CalcDynamicWindow(e.p, e.robot);
    var cs := Candidates(e.p, dw);
    var score := ScoreOf(e);
    PickSpec(score, cs, Initial);
    CandidatesInWindow(e.p, dw);
    var r := Pick(score, cs, Initial);
    if r != Initial || !NoneBelow(score, cs, Initial.minCost) {
      var k :| FirstMinimumBelow(score, cs, k, Initial.minCost) && r == Choice(score(cs[k]).value, cs[k]);
      assert cs[k] in cs;
    }
  }

  /** A command whose trajectory collides is sent only when it happens to be the fallback itself. */
  lemma InfiniteCostNeverSelected(e: Env)
    requires Ready(e)
    ensures Eval(e, DwaSelect(e)).Inf? ==> DwaSelect(e) == Fallback
  {
    DwaSelectSpec(e);
  }

  /** Scoring a + b is scoring a, then b from where a left off. */
  lemma {:induction false} PickAppend(score: Score, a: seq<Speed>, b: seq<Speed>, ch: Choice)
    ensures Pick(score, a + b, ch) == Pick(score, b, Pick(score, a, ch))
  {
    if |a| > 0 {
      assert (a + b)[1..] == a[1..] + b;
      assert (a + b)[0] == a[0];
      PickAppend(score, a[1..], b, Consider(ch, a[0], score(a[0])));
    } else {
      assert a + b == b;
    }
  }

  /** dwa_control, with its two stepped loops, the dead-band filter and the final fallback. */
  method DwaControl(e: Env) returns (out: Speed)
    requires Ready(e)
    ensures out == DwaSelect(e)
  {
    var dw := CalcDynamicWindow(e.p, e.robot);
    var minCost := Initial.minCost;
    var best := Initial.best;
    ghost var score := ScoreOf(e);
    ghost var final := Pick(score, Candidates(e.p, dw), Initial);
    ghost var ys := Steps(dw.minOmega, dw.maxOmega, e.p.dyaw);
    var v := dw.minV;
    while v <= dw.maxV
      invariant Pick(score, Grid(e.p, Steps(v, dw.maxV, e.p.dv), ys), Choice(minCost, best)) == final
      decreases |Steps(v, dw.maxV, e.p.dv)|
    {
      ghost var rest := Grid(e.p, Steps(v + e.p.dv, dw.maxV, e.p.dv), ys);
      assert Grid(e.p, Steps(v, dw.maxV, e.p.dv), ys) == Row(e.p, v, ys) + rest;
      PickAppend(score, Row(e.p, v, ys), rest, Choice(minCost, best));
      minCost, best := ScoreTurnRates(e, dw, v, minCost, best);
      v := v + e.p.dv;
    }
    assert Steps(v, dw.maxV, e.p.dv) == [];
    if minCost > FallbackAbove {
      best := Fallback;
    }
    out := best;
  }

  /** The inner loop of dwa_control: every turn rate of the window, at speed v, outside the dead band. */
  method ScoreTurnRates(e: Env, dw: Dw, v: real, minCost0: real, best0: Speed) returns (minCost: real, best: Speed)
    requires Ready(e)
    ensures Choice(minCost, best)
         == Pick(ScoreOf(e), Row(e.p, v, Steps(dw.minOmega, dw.maxOmega, e.p.dyaw)), Choice(minCost0, best0))
  {
    ghost var score := ScoreOf(e);
    ghost var target := Pick(score, Row(e.p, v, Steps(dw.minOmega, dw.maxOmega, e.p.dyaw)), Choice(minCost0, best0));
    var exceptionOmega := ExceptionOmega(e.p);
    minCost, best := minCost0, best0;
    var y := dw.minOmega;
    while y <= dw.maxOmega
      invariant Pick(score, Row(e.p, v, Steps(y, dw.maxOmega, e.p.dyaw)), Choice(minCost, best)) == target
      decreases |Steps(y, dw.maxOmega, e.p.dyaw)|
    {
      InnerStep(score, e.p, v, y, dw.maxOmega, Choice(minCost, best));
      if (-exceptionOmega < y && y < 0.0) || (0.0 < y && y < exceptionOmega) {
        y := y + e.p.dyaw;
        continue;
      }
      minCost, best := ScoreCommand(e, v, y, minCost, best);
      y := y + e.p.dyaw;
    }
    assert Steps(y, dw.maxOmega, e.p.dyaw) == [];
  }

  /** The body of the inner loop for a turn rate outside the dead band: score (v, y), keep it if strictly cheaper. */
  method ScoreCommand(e: Env, v: real, y: real, minCost0: real, best0: Speed) returns (minCost: real, best: Speed)
    requires Ready(e)
    ensures Choice(minCost, best) == Consider(Choice(minCost0, best0), Speed(v, y), ScoreOf(e)(Speed(v, y)))
  {
    minCost, best := minCost0, best0;
    var cost := Evaluate(e, v, y);
    if cost.Fin? && minCost > cost.value {
      minCost := cost.value;
      best := Speed(v, y);
    }
  }

  /** One pass of the inner loop: turn rate y is skipped in the dead band and scored otherwise. */
  lemma InnerStep(score: Score, p: Params, v: real, y: real, hi: real, ch: Choice)
    requires PositiveSteps(p) && y <= hi
    ensures |Steps(y + p.dyaw, hi, p.dyaw)| < |Steps(y, hi, p.dyaw)|
    ensures Pick(score, Row(p, v, Steps(y, hi, p.dyaw)), ch)
         == Pick(score, Row(p, v, Steps(y + p.dyaw, hi, p.dyaw)),
                 if DeadBand(p, y) then ch else Consider(ch, Speed(v, y), score(Speed(v, y))))
  {
    var ys := Steps(y, hi, p.dyaw);
    RemainingDecreases(y, hi, p.dyaw);
    assert ys[1..] == Steps(y + p.dyaw, hi, p.dyaw);
    var tail := Row(p, v, ys[1..]);
    if DeadBand(p, y) {
      assert Row(p, v, ys) == tail;
    } else {
      var c := Speed(v, y);
      assert Row(p, v, ys) == [c] + tail;
      assert ([c] + tail)[1..] == tail && ([c] + tail)[0] == c;
    }
  }
}
