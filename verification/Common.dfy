// What several parts of the system share.
module Common {
  datatype Option<T> = None | Some(value: T)

  // param.h: the most blocks that one file-system call may write.
  const MAXOPBLOCKS: nat := 10

  // A C string: the terminating NUL is not part of it.
  type CString = s: string | '\0' !in s

  // { from, ..., from + n - 1 }
  ghost function Interval(from: nat, n: nat): (s: set<nat>)
    ensures |s| == n && forall i: nat :: i in s <==> from <= i < from + n
  {
    if n == 0 then {} else Interval(from, n - 1) + {from + n - 1}
  }

  lemma SubsetSize(a: set<nat>, b: set<nat>)
    requires a <= b
    ensures |a| <= |b|
  {
    assert b == a + (b - a);
  }

  ghost function Members(q: seq<nat>): (s: set<nat>)
    ensures |s| <= |q| && forall b: nat :: b in s <==> b in q
  {
    if q == [] then {} else
      var t := Members(q[1..]);
      assert q == [q[0]] + q[1..];
      t + {q[0]}
  }

  // Before each of these calls of log_write(), fewer than MAXOPBLOCKS blocks are logged.
  ghost predicate RoomCalls(calls: seq<nat>) {
    forall k | 0 <= k < |calls| :: |Members(calls[..k])| < MAXOPBLOCKS
  }
}
