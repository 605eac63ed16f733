/** Values shared by every part of the content store: optional values,
    the errors the services return, and a result wrapper for Go's
    `(value, error)` pairs. */
module Common {

  /** A nullable value: Go's nil pointer is `None`. */
  datatype Option<+T> = None | Some(value: T)

  /** The errors the core can return. Each names the Go error value or the
      condition that produces it. */
  datatype Error =
    | NotFound                      // gorm.ErrRecordNotFound
    | Conflict                      // unique index violated on insert or save
    | SpaceStatusInvalid            // models.ErrSpaceStatusIsInvalid
    | PageStatusInvalid             // models.ErrPageStatusIsInvalid
    | NilStatus                     // UpdatePage called without a status (a nil dereference in Go)
    | RenderFailed                  // markdown.Parse returned an error
    | ScopeMismatch                 // parent page lies in another space
    | Unauthorized                  // "Unauthorized" (http.StatusText(401)) and errors.ErrUnauthorized
    | DescribeAccountParamsInvalid  // params.ErrDescribeAccountParamsInvalid
    | ValidationFailed              // validator.Struct rejected the parameters
    | NewPasswordInvalid            // "new passowrd is invalid"
    | HashFailed                    // bcrypt.GenerateFromPassword failed
    | SignFailed                    // jwt SignedString failed
    | DecodeFailed                  // base64 decoding of a token failed
    | TokenInvalid                  // jwt.ParseWithClaims rejected the token
    | QueryFailed                   // the database rejected the SQL statement

  /** Go's `(value, error)` pair with exactly one side present. */
  datatype Result<+T> = Ok(value: T) | Err(error: Error)

  /** A pointer field of a patch: the new value when given (non-nil), else
      the current one. */
  function Patch<T>(current: T, given: Option<T>): T {
    if given.Some? then given.value else current
  }

  /** The position of the first row of a table that satisfies `p`. Tables
      are stored in id order, so this is the row `First` returns for that
      condition. */
  function FirstWhere<T>(rows: seq<T>, p: T -> bool): (r: Option<nat>)
    ensures r.Some? ==> r.value < |rows| && p(rows[r.value])
                        && forall j | 0 <= j < r.value :: !p(rows[j])
    ensures r.None? <==> forall j | 0 <= j < |rows| :: !p(rows[j])
  {
    if rows == [] then None
    else if p(rows[0]) then Some(0)
    else
      var r := FirstWhere(rows[1..], p);
      if r.Some? then Some(r.value + 1) else None
  }

  /** The positions of the rows of a table that satisfy `p`: every such
      position exactly once, in increasing order. */
  function Positions<T>(rows: seq<T>, p: T -> bool): (ix: seq<nat>)
    ensures forall k | 0 <= k < |ix| :: ix[k] < |rows| && p(rows[ix[k]])
    ensures forall k, l | 0 <= k < l < |ix| :: ix[k] < ix[l]
    ensures forall i | 0 <= i < |rows| && p(rows[i]) :: i in ix
  {
    if rows == [] then []
    else
      var n := |rows| - 1;
      var rest := Positions(rows[..n], p);
      assert forall k | 0 <= k < |rest| :: rows[..n][rest[k]] == rows[rest[k]];
      if p(rows[n]) then rest + [n] else rest
  }

  /** The rows of a table that satisfy `p`, in table order. */
  function Where<T>(rows: seq<T>, p: T -> bool): (r: seq<T>)
    ensures |r| <= |rows|
    ensures forall x | x in r :: x in rows && p(x)
    ensures forall x | x in rows && p(x) :: x in r
  {
    if rows == [] then []
    else
      var rest := Where(rows[..|rows| - 1], p);
      var last := rows[|rows| - 1];
      assert rows == rows[..|rows| - 1] + [last];
      if p(last) then rest + [last] else rest
  }

  /** The filter is the table read at the matching positions, in
      increasing order: it keeps the table's order, and each matching
      row exactly once. */
  lemma {:induction false} WherePositions<T>(rows: seq<T>, p: T -> bool)
    ensures |Where(rows, p)| == |Positions(rows, p)|
    ensures forall k | 0 <= k < |Where(rows, p)| :: Where(rows, p)[k] == rows[Positions(rows, p)[k]]
  {
    if rows != [] {
      var n := |rows| - 1;
      WherePositions(rows[..n], p);
      var r0, ix := Where(rows[..n], p), Positions(rows[..n], p);
      var r, iy := Where(rows, p), Positions(rows, p);
      assert r == if p(rows[n]) then r0 + [rows[n]] else r0;
      assert iy == if p(rows[n]) then ix + [n] else ix;
      forall k | 0 <= k < |r| ensures r[k] == rows[iy[k]] {
        if k < |r0| {
          assert r[k] == r0[k] && iy[k] == ix[k];
          assert rows[..n][ix[k]] == rows[ix[k]];
        }
      }
    }
  }

  /** The positions of a table that satisfy `p`. */
  ghost function PositionSet<T>(rows: seq<T>, p: T -> bool): set<int> {
    set i | 0 <= i < |rows| && p(rows[i])
  }

  /** The filter's length is the number of rows that satisfy the
      condition. */
  lemma {:induction false} WhereCount<T>(rows: seq<T>, p: T -> bool)
    ensures |Where(rows, p)| == |PositionSet(rows, p)|
  {
    if rows != [] {
      var n := |rows| - 1;
      WhereCount(rows[..n], p);
      var s0 := PositionSet(rows[..n], p);
      var s1 := if p(rows[n]) then s0 + {n} else s0;
      assert n !in s0;
      forall i ensures i in PositionSet(rows, p) <==> i in s1 {
        if 0 <= i < n {
          assert rows[..n][i] == rows[i];
        }
      }
      assert PositionSet(rows, p) == s1;
    }
  }

  /** The filter holds each value as often as the table does when the
      value satisfies the condition, and not at all otherwise. */
  lemma {:induction false} WhereMultiplicity<T>(rows: seq<T>, p: T -> bool, x: T)
    ensures multiset(Where(rows, p))[x] == if p(x) then multiset(rows)[x] else 0
  {
    if rows != [] {
      var n := |rows| - 1;
      WhereMultiplicity(rows[..n], p, x);
      assert rows == rows[..n] + [rows[n]];
      assert multiset(rows) == multiset(rows[..n]) + multiset{rows[n]};
    }
  }
}
