/**
 Claims: an insertion-ordered map from names to values, as `IndexMap` keeps it. Inserting under a
 name that is there already replaces the value and keeps the place.
 */
module Claims {
  import opened Wrappers
  import opened Bytes

  /** A claim; the name is held as its UTF-8 bytes. */
  datatype Claim = Claim(name: seq<byte>, value: seq<byte>)

  function Ascii(s: string): (bs: seq<byte>)
    ensures |bs| == |s|
    ensures forall i :: 0 <= i < |s| ==> bs[i] == (s[i] as int) % 0x80
  {
    seq(|s|, i requires 0 <= i < |s| => (s[i] as int) % 0x80)
  }

  function Lookup(claims: seq<Claim>, name: seq<byte>): Option<seq<byte>> {
    if claims == [] then None
    else if claims[0].name == name then Some(claims[0].value)
    else Lookup(claims[1..], name)
  }

  function Insert(claims: seq<Claim>, name: seq<byte>, value: seq<byte>): seq<Claim> {
    if claims == [] then [Claim(name, value)]
    else if claims[0].name == name then [Claim(name, value)] + claims[1..]
    else [claims[0]] + Insert(claims[1..], name, value)
  }

  ghost predicate Distinct(claims: seq<Claim>) {
    forall i, j :: 0 <= i < j < |claims| ==> claims[i].name != claims[j].name
  }

  lemma {:induction false} LookupInsert(claims: seq<Claim>, name: seq<byte>, value: seq<byte>, other: seq<byte>)
    ensures Lookup(Insert(claims, name, value), other) == if other == name then Some(value) else Lookup(claims, other)
  {
    if claims != [] && claims[0].name != name {
      LookupInsert(claims[1..], name, value, other);
    }
  }

  lemma {:induction false} LookupExact(claims: seq<Claim>, name: seq<byte>)
    ensures Lookup(claims, name).None? <==> forall i :: 0 <= i < |claims| ==> claims[i].name != name
    ensures Lookup(claims, name).Some? ==> exists i :: 0 <= i < |claims| && claims[i] == Claim(name, Lookup(claims, name).value)
  {
    if claims != [] && claims[0].name != name {
      LookupExact(claims[1..], name);
      assert forall i :: 0 < i < |claims| ==> claims[i] == claims[1..][i - 1];
    }
  }

  lemma {:induction false} LookupAt(claims: seq<Claim>, k: nat)
    requires Distinct(claims) && k < |claims|
    ensures Lookup(claims, claims[k].name) == Some(claims[k].value)
  {
    if k > 0 {
      LookupAt(claims[1..], k - 1);
    }
  }

  /** A new name goes to the end. */
  lemma {:induction false} InsertNew(claims: seq<Claim>, name: seq<byte>, value: seq<byte>)
    requires Lookup(claims, name).None?
    ensures Insert(claims, name, value) == claims + [Claim(name, value)]
  {
    if claims != [] {
      InsertNew(claims[1..], name, value);
    }
  }

  /** A known name keeps its place, and so do all the others. */
  lemma {:induction false} InsertKnown(claims: seq<Claim>, name: seq<byte>, value: seq<byte>)
    requires Lookup(claims, name).Some?
    ensures |Insert(claims, name, value)| == |claims|
    ensures forall i :: 0 <= i < |claims| ==> Insert(claims, name, value)[i].name == claims[i].name
  {
    if claims[0].name != name {
      InsertKnown(claims[1..], name, value);
    }
  }

  lemma InsertDistinct(claims: seq<Claim>, name: seq<byte>, value: seq<byte>)
    requires Distinct(claims)
    ensures Distinct(Insert(claims, name, value))
  {
    LookupExact(claims, name);
    if Lookup(claims, name).None? {
      InsertNew(claims, name, value);
    } else {
      InsertKnown(claims, name, value);
    }
  }

  /** Whatever holds of every claim and of the new one holds of every claim after an insert. */
  lemma {:induction false} InsertForall(claims: seq<Claim>, name: seq<byte>, value: seq<byte>, p: Claim -> bool)
    requires p(Claim(name, value)) && forall i :: 0 <= i < |claims| ==> p(claims[i])
    ensures forall i :: 0 <= i < |Insert(claims, name, value)| ==> p(Insert(claims, name, value)[i])
    ensures |Insert(claims, name, value)| <= |claims| + 1
  {
    if claims != [] && claims[0].name != name {
      InsertForall(claims[1..], name, value, p);
    }
  }

  // ----- Merging -----

  /** Custom claims go in one by one, except where a name is taken. */
  function Merge(builtin: seq<Claim>, custom: seq<Claim>): seq<Claim>
    decreases |custom|
  {
    if custom == [] then builtin
    else if Lookup(builtin, custom[0].name).Some? then Merge(builtin, custom[1..])
    else Merge(Insert(builtin, custom[0].name, custom[0].value), custom[1..])
  }

  /** A merged map answers with the built-in claim where there is one, and with the custom one elsewhere. */
  lemma {:induction false} MergeLookup(builtin: seq<Claim>, custom: seq<Claim>, name: seq<byte>)
    ensures Lookup(Merge(builtin, custom), name) ==
      if Lookup(builtin, name).Some? then Lookup(builtin, name) else Lookup(custom, name)
    decreases |custom|
  {
    if custom != [] {
      var c := custom[0];
      if Lookup(builtin, c.name).Some? {
        MergeLookup(builtin, custom[1..], name);
      } else {
        MergeLookup(Insert(builtin, c.name, c.value), custom[1..], name);
        LookupInsert(builtin, c.name, c.value, name);
      }
    }
  }

  lemma {:induction false} MergeDistinct(builtin: seq<Claim>, custom: seq<Claim>)
    requires Distinct(builtin)
    ensures Distinct(Merge(builtin, custom)) && builtin <= Merge(builtin, custom)
    decreases |custom|
  {
    if custom != [] {
      var c := custom[0];
      if Lookup(builtin, c.name).Some? {
        MergeDistinct(builtin, custom[1..]);
      } else {
        InsertDistinct(builtin, c.name, c.value);
        InsertNew(builtin, c.name, c.value);
        MergeDistinct(Insert(builtin, c.name, c.value), custom[1..]);
      }
    }
  }

  /** The map itself, with its updates in place. */
  class ClaimsMap {
    var entries: seq<Claim>

    constructor (entries: seq<Claim>)
      ensures this.entries == entries
    {
      this.entries := entries;
    }

    method Get(name: seq<byte>) returns (r: Option<seq<byte>>)
      ensures r == Lookup(entries, name)
    {
      for i := 0 to |entries|
        invariant Lookup(entries, name) == Lookup(entries[i..], name)
      {
        if entries[i].name == name {
          return Some(entries[i].value);
        }
        assert entries[i..][1..] == entries[i + 1..];
      }
      return None;
    }

    method Put(name: seq<byte>, value: seq<byte>)
      modifies this
      ensures entries == Insert(old(entries), name, value)
    {
      for i := 0 to |entries|
        invariant Insert(entries, name, value) == entries[..i] + Insert(entries[i..], name, value)
        invariant entries == old(entries)
      {
        if entries[i].name == name {
          entries := entries[i := Claim(name, value)];
          return;
        }
        assert entries[i..][1..] == entries[i + 1..];
        assert entries[..i + 1] == entries[..i] + [entries[i]];
      }
      entries := entries + [Claim(name, value)];
    }

    /** The item-by-item merge of `verify_cert_der`. */
    method MergeFrom(custom: seq<Claim>)
      modifies this
      ensures entries == Merge(old(entries), custom)
    {
      for i := 0 to |custom|
        invariant Merge(entries, custom[i..]) == Merge(old(entries), custom)
      {
        assert custom[i..][1..] == custom[i + 1..];
        var taken := Get(custom[i].name);
        if taken.None? {
          Put(custom[i].name, custom[i].value);
        }
      }
    }
  }
}
