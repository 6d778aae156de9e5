/** Byte strings, and the few facts about joining them that the other modules share. */
module ByteStrings {
  newtype byte = x: int | 0 <= x < 256

  type Bytes = seq<byte>

  datatype Option<+T> = None | Some(value: T)

  datatype Result<+T, +E> = Ok(value: T) | Err(error: E)

  /** All the pieces, one after the other. */
  function Join(parts: seq<Bytes>): Bytes {
    if parts == [] then [] else parts[0] + Join(parts[1..])
  }

  lemma JoinCons(first: Bytes, rest: seq<Bytes>)
    ensures Join([first] + rest) == first + Join(rest)
  {
    assert ([first] + rest)[1..] == rest;
  }

  lemma Associative<T>(a: seq<T>, b: seq<T>, c: seq<T>)
    ensures a + b + c == a + (b + c)
  {
  }

  lemma {:induction false} JoinAppend(left: seq<Bytes>, right: seq<Bytes>)
    ensures Join(left + right) == Join(left) + Join(right)
  {
    if left == [] {
      assert left + right == right;
    } else {
      hide Join;
      var first, rest := left[0], left[1..];
      JoinAppend(rest, right);
      Associative([first], rest, right);
      assert [first] + rest == left;
      JoinCons(first, rest);
      JoinCons(first, rest + right);
      Associative(first, Join(rest), Join(right));
    }
  }

  lemma ConsSlices<T>(first: T, rest: seq<T>, k: nat)
    requires 0 < k <= |rest| + 1
    ensures ([first] + rest)[..k] == [first] + rest[..k - 1]
    ensures ([first] + rest)[k..] == rest[k - 1..]
  {
  }

  lemma JoinSnoc(parts: seq<Bytes>, last: Bytes)
    ensures Join(parts + [last]) == Join(parts) + last
  {
    JoinAppend(parts, [last]);
    assert Join([last]) == last;
  }

  lemma HasElement<T>(s: seq<T>)
    requires s != []
    ensures exists x :: x in s
  {
    assert s[0] in s;
  }

  /** Going down from any member of a set of naturals ends at its least element. */
  lemma {:induction false} LeastBelow(s: set<nat>, x: nat) returns (m: nat)
    requires x in s
    ensures m in s && forall y :: y in s ==> m <= y
    decreases x
  {
    if y :| y in s && y < x {
      m := LeastBelow(s, y);
    } else {
      m := x;
    }
  }

  /** The least element, as key-ordered listings return it first. */
  ghost function Least(s: set<nat>): (m: nat)
    requires s != {}
    ensures m in s && forall x :: x in s ==> m <= x
  {
    var some :| some in s;
    assert exists m :: m in s && forall x :: x in s ==> m <= x by {
      var m := LeastBelow(s, some);
    }
    var m :| m in s && forall x :: x in s ==> m <= x;
    m
  }

  /** Moves the bytes from cut on to the front of a buffer, in place. */
  method Shift(pending: array<byte>, len: nat, cut: nat)
    requires cut <= len <= pending.Length
    modifies pending
    ensures pending[..len - cut] == old(pending[cut..len])
  {
    forall i | 0 <= i < len - cut {
      pending[i] := pending[i + cut];
    }
  }

  /** Appends to a buffer with room left. */
  method Fill(pending: array<byte>, len: nat, bytes: Bytes)
    requires len + |bytes| <= pending.Length
    modifies pending
    ensures pending[..len + |bytes|] == old(pending[..len]) + bytes
  {
    forall i | 0 <= i < |bytes| {
      pending[len + i] := bytes[i];
    }
  }
}
