/**
 The message-type table shared by both registries: the name-to-code map that
 registering (or receiving) names in order produces, and the table payload
 the server writes after the sentinel code (a 16-bit count followed by the
 names) together with the client's reading of it.
 */
module TypeTable {
  import opened Wire

  /**
   `indices` gives each of `names` its position cast to 16 bits as its code,
   and has no other keys: the map that adding the names one after another,
   each under the count so far, produces.
   */
  ghost predicate Positions(indices: map<string, u16>, names: seq<string>)
  {
    && indices.Keys == (set x | x in names)
    && forall i :: 0 <= i < |names| ==> indices[names[i]] as int == i % 0x1_0000
  }

  /** Adding the next name under the count so far extends the map. */
  lemma PositionsSnoc(indices: map<string, u16>, names: seq<string>, x: string)
    requires Distinct(names + [x]) && Positions(indices, names)
    ensures Positions(indices[x := (|names| % 0x1_0000) as u16], names + [x])
  {
    var next := names + [x];
    forall i | 0 <= i < |names|
      ensures names[i] != x
    {
      assert next[i] != next[|names|];
    }
  }

  /** While there are at most 2^16 names, a code leads back to the name it was given to. */
  lemma PositionsInverse(indices: map<string, u16>, names: seq<string>, x: string)
    requires Distinct(names) && |names| <= 0x1_0000 && Positions(indices, names) && x in indices
    ensures indices[x] as int < |names|
    ensures names[indices[x]] == x
  {
    var i :| 0 <= i < |names| && names[i] == x;
    assert indices[names[i]] as int == i;
  }

  /** The same names in the same order give the same map, whoever built it. */
  lemma PositionsUnique(a: map<string, u16>, b: map<string, u16>, names: seq<string>)
    requires Positions(a, names) && Positions(b, names)
    ensures a == b
  {
    forall x | x in a
      ensures a[x] == b[x]
    {
      var i :| 0 <= i < |names| && names[i] == x;
      assert a[names[i]] as int == i % 0x1_0000 == b[names[i]] as int;
    }
  }

  /** The names as string fields, in order. */
  function Strs(names: seq<string>): seq<Field>
  {
    seq(|names|, i requires 0 <= i < |names| => Str(names[i]))
  }

  /** The table the server appends after the sentinel: the count as a 16-bit value, then every name. */
  function Encode(names: seq<string>): (r: seq<Field>)
    ensures |r| == |names| + 1
    ensures r[0].U16? && r[0].v as int == |names| % 0x1_0000
    ensures forall i :: 0 <= i < |names| ==> r[i + 1] == Str(names[i])
  {
    [U16((|names| % 0x1_0000) as u16)] + Strs(names)
  }

  /** Reads `n` string fields from the front of `fields`; fields after them are left unread. */
  function ReadStrs(fields: seq<Field>, n: nat): (r: Option<seq<string>>)
    ensures r.Some? ==> |r.value| == n <= |fields|
    ensures r.Some? ==> forall i :: 0 <= i < n ==> fields[i] == Str(r.value[i])
    decreases n
  {
    if n == 0 then Some([])
    else if fields == [] || !fields[0].Str? then None
    else match ReadStrs(fields[1..], n - 1)
      case None => None
      case Some(rest) => Some([fields[0].s] + rest)
  }

  /**
   The client's reading of a table payload: a 16-bit count, then that many
   names. A payload of another shape is malformed.
   */
  function Parse(payload: seq<Field>): (r: Option<seq<string>>)
    ensures r.Some? ==> |payload| > |r.value| && payload[0].U16? && payload[0].v as int == |r.value|
    ensures r.Some? ==> forall i :: 0 <= i < |r.value| ==> payload[i + 1] == Str(r.value[i])
  {
    if payload == [] || !payload[0].U16? then None
    else ReadStrs(payload[1..], payload[0].v as nat)
  }

  lemma {:induction false} ReadStrsOfStrs(names: seq<string>, rest: seq<Field>)
    ensures ReadStrs(Strs(names) + rest, |names|) == Some(names)
  {
    if names != [] {
      assert (Strs(names) + rest)[0] == Str(names[0]);
      assert (Strs(names) + rest)[1..] == Strs(names[1..]) + rest;
      ReadStrsOfStrs(names[1..], rest);
      assert names == [names[0]] + names[1..];
    }
  }

  /** Whenever the count fits in 16 bits, the client reads back exactly the names the server wrote, in order. */
  lemma ParseEncode(names: seq<string>)
    requires |names| < 0x1_0000
    ensures Parse(Encode(names)) == Some(names)
  {
    assert Encode(names)[1..] == Strs(names) + [];
    ReadStrsOfStrs(names, []);
  }

  /** With 2^16 names the count wraps to zero, and the client reads an empty table. */
  lemma ParseEncodeWraps(names: seq<string>)
    requires |names| == 0x1_0000
    ensures Parse(Encode(names)) == Some([])
  {
  }
}
