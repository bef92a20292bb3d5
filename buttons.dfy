/**
 * Ordering of the accept and reject controls found on the applicant list:
 * the matches of the template matcher are sorted by (y, x), so that the first
 * one is the topmost, leftmost control.
 */
module Buttons {
  import opened Types

  /** The sort key (y, x), compared lexicographically. */
  predicate YXLe(a: Point, b: Point) {
    a.y < b.y || (a.y == b.y && a.x <= b.x)
  }

  predicate SortedYX(s: seq<Point>) {
    forall i, j :: 0 <= i < j < |s| ==> YXLe(s[i], s[j])
  }

  function Insert(p: Point, s: seq<Point>): seq<Point> {
    if s == [] then [p]
    else if YXLe(p, s[0]) then [p] + s
    else [s[0]] + Insert(p, s[1..])
  }

  function SortByYX(s: seq<Point>): seq<Point> {
    if s == [] then [] else Insert(s[0], SortByYX(s[1..]))
  }

  lemma {:induction false} InsertPermutes(p: Point, s: seq<Point>)
    ensures multiset(Insert(p, s)) == multiset(s) + multiset{p}
  {
    if s != [] && !YXLe(p, s[0]) {
      InsertPermutes(p, s[1..]);
      assert s == [s[0]] + s[1..];
    }
  }

  lemma {:induction false} InsertSorted(p: Point, s: seq<Point>)
    requires SortedYX(s)
    ensures SortedYX(Insert(p, s))
  {
    if s == [] {
    } else if YXLe(p, s[0]) {
      var r := [p] + s;
      forall i, j | 0 <= i < j < |r| ensures YXLe(r[i], r[j]) {
        if i == 0 {
          assert YXLe(s[0], s[j - 1]);
        } else {
          assert r[i] == s[i - 1] && r[j] == s[j - 1];
        }
      }
    } else {
      var tail := s[1..];
      var t := Insert(p, tail);
      SortedTail(s);
      InsertSorted(p, tail);
      InsertPermutes(p, tail);
      forall k | 0 <= k < |t| ensures YXLe(s[0], t[k]) {
        assert t[k] in multiset(t);
        if t[k] != p {
          assert t[k] in multiset(tail);
          var m :| 0 <= m < |tail| && tail[m] == t[k];
          assert tail[m] == s[m + 1];
        }
      }
      var r := [s[0]] + t;
      assert Insert(p, s) == r;
      forall i, j | 0 <= i < j < |r| ensures YXLe(r[i], r[j]) {
        if i == 0 {
          assert r[j] == t[j - 1];
        } else {
          assert r[i] == t[i - 1] && r[j] == t[j - 1];
        }
      }
    }
  }

  /** The sorted matches are the same matches (a permutation) in (y, x) order. */
  lemma {:induction false} SortByYXCorrect(s: seq<Point>)
    ensures SortedYX(SortByYX(s))
    ensures multiset(SortByYX(s)) == multiset(s)
  {
    if s != [] {
      SortByYXCorrect(s[1..]);
      InsertSorted(s[0], SortByYX(s[1..]));
      InsertPermutes(s[0], SortByYX(s[1..]));
      assert s == [s[0]] + s[1..];
    }
  }

  lemma SortedTail(s: seq<Point>)
    requires SortedYX(s) && s != []
    ensures SortedYX(s[1..])
  {
    var tail := s[1..];
    forall i, j | 0 <= i < j < |tail| ensures YXLe(tail[i], tail[j]) {
      assert tail[i] == s[i + 1] && tail[j] == s[j + 1];
    }
  }

  /**
   * A sorted arrangement of the matches is unique: any sequence that is a
   * permutation of the matches and sorted by (y, x) is the one returned.
   */
  lemma {:induction false} SortedPermutationUnique(a: seq<Point>, b: seq<Point>)
    requires SortedYX(a) && SortedYX(b)
    requires multiset(a) == multiset(b)
    ensures a == b
  {
    if a != [] {
      assert a[0] in multiset(b);
      assert b != [];
      assert b[0] in multiset(a);
      var i :| 0 <= i < |b| && b[i] == a[0];
      var j :| 0 <= j < |a| && a[j] == b[0];
      assert YXLe(b[0], a[0]) && YXLe(a[0], b[0]);
      assert a[0] == b[0];
      assert a == [a[0]] + a[1..];
      assert b == [b[0]] + b[1..];
      assert multiset(a) == multiset{a[0]} + multiset(a[1..]);
      assert multiset(b) == multiset{b[0]} + multiset(b[1..]);
      assert multiset(a[1..]) == multiset(a) - multiset{a[0]};
      assert multiset(b[1..]) == multiset(b) - multiset{b[0]};
      SortedTail(a);
      SortedTail(b);
      SortedPermutationUnique(a[1..], b[1..]);
    } else {
      assert |b| == |multiset(b)| == 0;
    }
  }

  /**
   * `find_accept_buttons` / `find_reject_buttons`: all the matches, sorted
   * ascending by y and then by x; no matches gives no buttons.
   */
  function FindButtons(matches: seq<Point>): (r: seq<Point>)
    ensures |r| == |matches|
  {
    SortByYXCorrect(matches);
    assert |multiset(SortByYX(matches))| == |multiset(matches)|;
    SortByYX(matches)
  }

  /** The buttons are the matches, each as often as it was matched, in (y, x) order. */
  lemma FindButtonsCorrect(matches: seq<Point>)
    ensures SortedYX(FindButtons(matches))
    ensures multiset(FindButtons(matches)) == multiset(matches)
  {
    SortByYXCorrect(matches);
  }

  /**
   * The first button is the topmost (then leftmost) of the matches, and there
   * is one exactly when there is a match.
   */
  lemma TopmostButton(matches: seq<Point>)
    ensures |FindButtons(matches)| == |matches|
    ensures |matches| > 0 ==>
      FindButtons(matches)[0] in matches &&
      forall q :: q in matches ==> YXLe(FindButtons(matches)[0], q)
  {
    var r := FindButtons(matches);
    FindButtonsCorrect(matches);
    if |matches| > 0 {
      assert r[0] in multiset(matches);
      forall q | q in matches ensures YXLe(r[0], q) {
        assert q in multiset(r);
        var k :| 0 <= k < |r| && r[k] == q;
      }
    }
  }
}
