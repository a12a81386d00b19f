/**
 * set_waypoint: the tour of landmarks is rotated so that it starts at the
 * landmark nearest the robot (or at the next one, when that is closer than
 * the previous one), and the robot's own position is put at both ends.
 */
module Tour {

  datatype Landmark = Landmark(x: real, y: real)

  /**
   * Squared planar distance. The source compares square roots; the square
   * root is monotone, so every comparison has the same outcome.
   */
  function SqDist(a: Landmark, b: Landmark): (d: real)
    ensures d >= 0.0
  {
    (a.x - b.x) * (a.x - b.x) + (a.y - b.y) * (a.y - b.y)
  }

  function Dists(robot: Landmark, ls: seq<Landmark>): (d: seq<real>)
    ensures |d| == |ls|
    ensures forall k :: 0 <= k < |ls| ==> d[k] == SqDist(robot, ls[k])
  {
    seq(|ls|, k requires 0 <= k < |ls| => SqDist(robot, ls[k]))
  }

  /** The first index holding the least value: later equal values do not replace it. */
  function FirstMinimum(d: seq<real>): (k: nat)
    requires |d| > 0
    ensures k < |d|
    ensures forall j :: 0 <= j < |d| ==> d[k] <= d[j]
    ensures forall j :: 0 <= j < k ==> d[k] < d[j]
  {
    if |d| == 1 then 0
    else
      var k := FirstMinimum(d[..|d| - 1]);
      assert forall j :: 0 <= j < |d| - 1 ==> d[..|d| - 1][j] == d[j];
      if d[|d| - 1] < d[k] then |d| - 1 else k
  }

  /**
   * The landmark the tour starts at: the nearest one, moved on to its
   * successor (cyclically) when the successor is strictly closer than the
   * predecessor.
   */
  function TourStart(d: seq<real>): (s: nat)
    requires |d| > 0
    ensures s < |d|
    ensures var n := FirstMinimum(d); s == n || s == (n + 1) % |d|
  {
    var w := |d|;
    var n := FirstMinimum(d);
    if d[(n + 1) % w] < d[(n - 1 + w) % w] then (n + 1) % w else n
  }

  /** The sequence s rotated to start at index n. */
  function Rotate<T>(s: seq<T>, n: nat): seq<T>
    requires n <= |s|
  {
    s[n..] + s[..n]
  }

  lemma ModBelow(a: int, b: int)
    requires 0 <= a < b
    ensures a % b == a
  {
  }

  lemma ModOnce(a: int, b: int)
    requires 0 < b <= a < 2 * b
    ensures a % b == a - b
  {
    ModBelow(a - b, b);
    assert (a - b) % b == ((a - b) + b) % b;
  }

  lemma RotateAt<T>(s: seq<T>, n: nat, k: nat)
    requires n < |s| && k < |s|
    ensures |Rotate(s, n)| == |s|
    ensures Rotate(s, n)[k] == s[(n + k) % |s|]
  {
    if n + k < |s| {
      ModBelow(n + k, |s|);
      assert Rotate(s, n)[k] == s[n..][k];
    } else {
      ModOnce(n + k, |s|);
      assert Rotate(s, n)[k] == s[..n][k - (|s| - n)];
    }
  }

  /** A rotation is a permutation: every element keeps its multiplicity. */
  lemma RotatePermutation<T>(s: seq<T>, n: nat)
    requires n <= |s|
    ensures multiset(Rotate(s, n)) == multiset(s)
  {
    assert s == s[..n] + s[n..];
  }

  /** The tour built from the first waycount landmarks and the robot position. */
  function TourOf(robot: Landmark, waycount: nat, landmarks: seq<Landmark>): seq<Landmark>
    requires 1 <= waycount <= |landmarks|
  {
    var ls := landmarks[..waycount];
    [robot] + Rotate(ls, TourStart(Dists(robot, ls))) + [robot]
  }

  /**
   * set_waypoint returns waycount + 2 entries; the first and the last are the
   * robot position, and the entries between them are the landmarks rotated
   * to start at the chosen landmark, so each landmark appears exactly as
   * often as in the input.
   */
  lemma TourVisitsEachLandmarkOnce(robot: Landmark, waycount: nat, landmarks: seq<Landmark>)
    requires 1 <= waycount <= |landmarks|
    ensures var t := TourOf(robot, waycount, landmarks);
      && |t| == waycount + 2
      && t[0] == robot && t[waycount + 1] == robot
      && multiset(t[1..waycount + 1]) == multiset(landmarks[..waycount])
      && t[1] == landmarks[TourStart(Dists(robot, landmarks[..waycount]))]
  {
    var ls := landmarks[..waycount];
    var n := TourStart(Dists(robot, ls));
    var t := TourOf(robot, waycount, landmarks);
    assert t[1..waycount + 1] == Rotate(ls, n);
    RotatePermutation(ls, n);
    RotateAt(ls, n, 0);
  }

  /** The first loop of set_waypoint: every landmark's distance, and the first nearest one. */
  method Nearest(robot: Landmark, ls: seq<Landmark>) returns (dist: seq<real>, next: nat)
    requires |ls| > 0
    ensures dist == Dists(robot, ls)
    ensures next == FirstMinimum(dist)
  {
    dist := [];
    var minDist := 0.0;  // stands for INFINITY: the first distance always replaces it
    next := 0;
    for i := 0 to |ls|
      invariant |dist| == i
      invariant forall k :: 0 <= k < i ==> dist[k] == SqDist(robot, ls[k])
      invariant i > 0 ==> next == FirstMinimum(dist) && minDist == dist[next]
    {
      var old_dist := dist;
      dist := dist + [SqDist(robot, ls[i])];
      assert dist[..|dist| - 1] == old_dist;
      if i == 0 || dist[i] < minDist {
        next := i;
        minDist := dist[i];
      }
    }
  }

  /** The start of the tour chosen by set_waypoint. */
  method ChooseStart(robot: Landmark, ls: seq<Landmark>) returns (next: nat)
    requires |ls| > 0
    ensures next == TourStart(Dists(robot, ls))
  {
    var waycount := |ls|;
    var dist;
    dist, next := Nearest(robot, ls);
    if dist[(next + 1) % waycount] < dist[(next - 1 + waycount) % waycount] {
      next := (next + 1) % waycount;
    }
  }

  /** set_waypoint, with the landmark vector passed by reference returned as the new tour. */
  method SetWaypoint(robot: Landmark, waycount: int, landmarks: seq<Landmark>) returns (tour: seq<Landmark>)
    requires 1 <= waycount <= |landmarks|
    ensures tour == TourOf(robot, waycount, landmarks)
  {
    var ls := landmarks[..waycount];
    var next := ChooseStart(robot, ls);
    ghost var start := next;
    tour := [robot];
    for i := 1 to waycount + 1
      invariant |tour| == i && tour[0] == robot
      invariant next == start + i - 1
      invariant forall j :: 1 <= j < i ==> tour[j] == ls[(start + j - 1) % waycount]
    {
      tour := tour + [landmarks[next % waycount]];
      next := next + 1;
    }
    tour := tour + [robot];
    forall k | 0 <= k < waycount
      ensures tour[1..waycount + 1][k] == Rotate(ls, start)[k]
    {
      RotateAt(ls, start, k);
    }
    assert tour[1..waycount + 1] == Rotate(ls, start);
    assert tour == [robot] + tour[1..waycount + 1] + [robot];
  }
}
