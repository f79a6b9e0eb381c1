/**
 * An SQL table held in memory: a sequence of rows in storage order.
 * The three query shapes the database layer issues are modelled once here:
 * `SELECT COUNT(*) ... WHERE p` (Count), `DELETE ... WHERE NOT p`, which
 * leaves the rows satisfying p in their order (Keep), and `fetchone()` on a
 * `SELECT ... WHERE p`, which yields the first matching row in storage
 * order (First).
 */
module Table {
  import opened Wrappers

  /** Number of rows satisfying p. */
  function Count<T>(rows: seq<T>, p: T -> bool): (n: nat)
    ensures n <= |rows|
    ensures n == 0 <==> forall i :: 0 <= i < |rows| ==> !p(rows[i])
  {
    if |rows| == 0 then 0
    else
      var init := rows[..|rows| - 1];
      assert forall i :: 0 <= i < |init| ==> init[i] == rows[i];
      Count(init, p) + (if p(rows[|rows| - 1]) then 1 else 0)
  }

  /** The positions of the rows satisfying p. */
  ghost function Matching<T>(rows: seq<T>, p: T -> bool): set<int> {
    set i | 0 <= i < |rows| && p(rows[i])
  }

  /** Count agrees with the number of matching positions. */
  lemma {:induction false} CountIsCardinality<T>(rows: seq<T>, p: T -> bool)
    ensures Count(rows, p) == |Matching(rows, p)|
  {
    if |rows| > 0 {
      var init := rows[..|rows| - 1];
      CountIsCardinality(init, p);
      var last := |rows| - 1;
      var m, m' := Matching(init, p), Matching(rows, p);
      assert forall i :: i in m' && i != last <==> i in m by {
        forall i ensures i in m' && i != last <==> i in m {
          if 0 <= i < last { assert init[i] == rows[i]; }
        }
      }
      if p(rows[last]) {
        assert m' == m + {last};
      } else {
        assert m' == m;
      }
    }
  }

  lemma {:induction false} CountConcat<T>(a: seq<T>, b: seq<T>, p: T -> bool)
    ensures Count(a + b, p) == Count(a, p) + Count(b, p)
  {
    if |b| > 0 {
      var init := b[..|b| - 1];
      var x := b[|b| - 1];
      assert b == init + [x];
      assert a + b == (a + init) + [x];
      CountConcat(a, init, p);
      CountAppend(a + init, x, p);
      CountAppend(init, x, p);
    } else {
      assert a + b == a;
    }
  }

  lemma CountAppend<T>(rows: seq<T>, x: T, p: T -> bool)
    ensures Count(rows + [x], p) == Count(rows, p) + (if p(x) then 1 else 0)
  {
    assert (rows + [x])[..|rows|] == rows;
  }

  /** Exactly one row satisfies p. */
  ghost predicate ExactlyOne<T>(rows: seq<T>, p: T -> bool) {
    exists i :: 0 <= i < |rows| && p(rows[i]) && forall j :: 0 <= j < |rows| && p(rows[j]) ==> j == i
  }

  /** With the last row matching, exactly one row matches iff no earlier row does. */
  lemma ExactlyOneLastMatches<T>(init: seq<T>, x: T, p: T -> bool)
    requires p(x)
    ensures ExactlyOne(init + [x], p) <==> forall i :: 0 <= i < |init| ==> !p(init[i])
  {
    var rows := init + [x];
    var last := |init|;
    assert forall i :: 0 <= i < |init| ==> rows[i] == init[i];
    assert p(rows[last]);
    if ExactlyOne(rows, p) {
      var i :| 0 <= i < |rows| && p(rows[i]) && forall j :: 0 <= j < |rows| && p(rows[j]) ==> j == i;
      assert i == last;
    }
    if forall i :: 0 <= i < |init| ==> !p(init[i]) {
      assert forall j :: 0 <= j < |rows| && p(rows[j]) ==> j == last;
    }
  }

  /** With the last row not matching, exactly one row matches iff that holds without it. */
  lemma ExactlyOneLastMisses<T>(init: seq<T>, x: T, p: T -> bool)
    requires !p(x)
    ensures ExactlyOne(init + [x], p) <==> ExactlyOne(init, p)
  {
    var rows := init + [x];
    if ExactlyOne(rows, p) {
      var i :| 0 <= i < |rows| && p(rows[i]) && forall j :: 0 <= j < |rows| && p(rows[j]) ==> j == i;
      assert rows[|init|] == x;
      assert i < |init| && rows[i] == init[i];
      forall j | 0 <= j < |init| && p(init[j]) ensures j == i {
        assert rows[j] == init[j];
      }
    }
    if ExactlyOne(init, p) {
      var i :| 0 <= i < |init| && p(init[i]) && forall j :: 0 <= j < |init| && p(init[j]) ==> j == i;
      assert rows[i] == init[i] && rows[|init|] == x;
      forall j | 0 <= j < |rows| && p(rows[j]) ensures j == i {
        if j < |init| { assert rows[j] == init[j]; }
      }
    }
  }

  lemma {:induction false} CountIsOne<T>(rows: seq<T>, p: T -> bool)
    ensures Count(rows, p) == 1 <==> ExactlyOne(rows, p)
  {
    if |rows| > 0 {
      var init := rows[..|rows| - 1];
      var x := rows[|rows| - 1];
      assert rows == init + [x];
      CountIsOne(init, p);
      CountAppend(init, x, p);
      if p(x) {
        ExactlyOneLastMatches(init, x, p);
      } else {
        ExactlyOneLastMisses(init, x, p);
      }
    }
  }

  /** The rows satisfying p, in their storage order. */
  function Keep<T>(rows: seq<T>, p: T -> bool): (r: seq<T>)
    ensures |r| == Count(rows, p)
    ensures forall i :: 0 <= i < |r| ==> p(r[i])
  {
    if |rows| == 0 then []
    else
      var init := rows[..|rows| - 1];
      assert rows == init + [rows[|rows| - 1]];
      Keep(init, p) + (if p(rows[|rows| - 1]) then [rows[|rows| - 1]] else [])
  }

  lemma KeepAppend<T>(rows: seq<T>, x: T, p: T -> bool)
    ensures Keep(rows + [x], p) == Keep(rows, p) + (if p(x) then [x] else [])
  {
    assert (rows + [x])[..|rows|] == rows;
  }

  /** Keep invents no row and drops no row satisfying p. */
  lemma {:induction false} KeepMembers<T>(rows: seq<T>, p: T -> bool)
    ensures forall i :: 0 <= i < |Keep(rows, p)| ==> Keep(rows, p)[i] in rows
    ensures forall i :: 0 <= i < |rows| && p(rows[i]) ==> rows[i] in Keep(rows, p)
  {
    if |rows| > 0 {
      var init := rows[..|rows| - 1];
      var x := rows[|rows| - 1];
      assert rows == init + [x];
      KeepMembers(init, p);
      KeepAppend(init, x, p);
      var k := Keep(init, p);
      var r := Keep(rows, p);
      forall i | 0 <= i < |r| ensures r[i] in rows {
        if i < |k| {
          assert r[i] == k[i];
        }
      }
      forall i | 0 <= i < |rows| && p(rows[i]) ensures rows[i] in r {
        if i < |init| {
          assert rows[i] == init[i];
        }
      }
    }
  }

  /** Deleting nothing: when every row satisfies p, Keep changes nothing. */
  lemma {:induction false} KeepAll<T>(rows: seq<T>, p: T -> bool)
    requires forall i :: 0 <= i < |rows| ==> p(rows[i])
    ensures Keep(rows, p) == rows
  {
    if |rows| > 0 {
      var init := rows[..|rows| - 1];
      KeepAll(init, p);
      assert rows == init + [rows[|rows| - 1]];
    }
  }

  /**
   * Counting after a deletion: the rows satisfying q that remain, plus the
   * rows satisfying q that the deletion removed (those satisfying qp), are
   * the rows satisfying q before.
   */
  lemma {:induction false} CountAfterKeep<T>(rows: seq<T>, p: T -> bool, q: T -> bool, qp: T -> bool)
    requires forall x :: qp(x) <==> q(x) && !p(x)
    ensures Count(Keep(rows, p), q) + Count(rows, qp) == Count(rows, q)
  {
    if |rows| > 0 {
      var init := rows[..|rows| - 1];
      var x := rows[|rows| - 1];
      assert rows == init + [x];
      CountAfterKeep(init, p, q, qp);
      var k := Keep(init, p);
      KeepAppend(init, x, p);
      CountAppend(init, x, q);
      CountAppend(init, x, qp);
      if p(x) {
        assert Keep(rows, p) == k + [x];
        CountAppend(k, x, q);
        assert !qp(x);
      } else {
        assert Keep(rows, p) == k;
        assert qp(x) == q(x);
      }
    }
  }

  /** A DELETE repeated with the same condition deletes nothing more. */
  lemma KeepIdempotent<T>(rows: seq<T>, p: T -> bool)
    ensures Keep(Keep(rows, p), p) == Keep(rows, p)
  {
    KeepAll(Keep(rows, p), p);
  }

  /**
   * Rows that the deletion spares are exactly as before, in the same order:
   * selecting the rows satisfying q after keeping those satisfying p gives
   * the same as selecting them from the original table, whenever q implies p.
   */
  lemma {:induction false} KeepKeep<T>(rows: seq<T>, p: T -> bool, q: T -> bool)
    requires forall x :: q(x) ==> p(x)
    ensures Keep(Keep(rows, p), q) == Keep(rows, q)
  {
    if |rows| > 0 {
      var init := rows[..|rows| - 1];
      var x := rows[|rows| - 1];
      assert rows == init + [x];
      KeepKeep(init, p, q);
      KeepAppend(init, x, p);
      KeepAppend(init, x, q);
      var kp := Keep(init, p);
      if p(x) {
        KeepAppend(kp, x, q);
        assert Keep(rows, p) == kp + [x];
      } else {
        assert !q(x);
        assert Keep(rows, p) == kp;
      }
    }
  }

  /** The keys of the rows strictly increase along storage order. */
  ghost predicate Ascending<T>(rows: seq<T>, key: T -> int) {
    forall i, j :: 0 <= i < j < |rows| ==> key(rows[i]) < key(rows[j])
  }

  /** Deleting rows never breaks an ascending key order. */
  lemma {:induction false} KeepAscending<T>(rows: seq<T>, p: T -> bool, key: T -> int)
    requires Ascending(rows, key)
    ensures Ascending(Keep(rows, p), key)
  {
    if |rows| > 0 {
      var init := rows[..|rows| - 1];
      var x := rows[|rows| - 1];
      assert Ascending(init, key);
      KeepAscending(init, p, key);
      var k := Keep(init, p);
      KeepMembers(init, p);
      forall i | 0 <= i < |k| ensures key(k[i]) < key(x) {
        var j :| 0 <= j < |init| && init[j] == k[i];
        assert rows[j] == k[i];
      }
    }
  }

  /** No two rows share a key. */
  ghost predicate DistinctKeys<T, K>(rows: seq<T>, key: T -> K) {
    forall i, j :: 0 <= i < j < |rows| ==> key(rows[i]) != key(rows[j])
  }

  /** Deleting rows never makes two keys equal. */
  lemma {:induction false} KeepDistinctKeys<T, K>(rows: seq<T>, p: T -> bool, key: T -> K)
    requires DistinctKeys(rows, key)
    ensures DistinctKeys(Keep(rows, p), key)
  {
    if |rows| > 0 {
      var init := rows[..|rows| - 1];
      var x := rows[|rows| - 1];
      assert rows == init + [x];
      assert DistinctKeys(init, key);
      KeepDistinctKeys(init, p, key);
      KeepAppend(init, x, p);
      var k := Keep(init, p);
      KeepMembers(init, p);
      forall i | 0 <= i < |k| ensures key(k[i]) != key(x) {
        var j :| 0 <= j < |init| && init[j] == k[i];
        assert rows[j] == k[i];
      }
    }
  }

  /** Position of the first row satisfying p, if any. */
  function First<T>(rows: seq<T>, p: T -> bool): (r: Option<nat>)
    ensures r.Some? ==> r.value < |rows| && p(rows[r.value])
    ensures r.Some? ==> forall j :: 0 <= j < r.value ==> !p(rows[j])
    ensures r.None? <==> forall i :: 0 <= i < |rows| ==> !p(rows[i])
  {
    if |rows| == 0 then None
    else if p(rows[0]) then Some(0)
    else match First(rows[1..], p)
      case None => None
      case Some(i) => Some(i + 1)
  }
}
