/** String-keyed record literals (`Record<string, string>`) and property lookup on them. */
module Records {
  import opened Wrappers

  /** A `Record<string, string>` literal: its entries in declaration order. */
  type Table = seq<(string, string)>

  /** The keys of a table. */
  function Keys(t: Table): (ks: set<string>)
    ensures forall i :: 0 <= i < |t| ==> t[i].0 in ks
    ensures forall k :: k in ks ==> exists i :: 0 <= i < |t| && t[i].0 == k
  {
    set i | 0 <= i < |t| :: t[i].0
  }

  /** `t[key]`: the value of the entry with that key (the tables' keys are unique, see
      `UniqueKeys`), `None` (undefined) when there is none. */
  function Lookup(t: Table, key: string): (r: Option<string>)
    ensures r.None? <==> key !in Keys(t)
    ensures r.Some? ==> exists i :: 0 <= i < |t| && t[i] == (key, r.value)
  {
    if t == [] then None
    else if t[0].0 == key then Some(t[0].1)
    else
      var r := Lookup(t[1..], key);
      assert key in Keys(t[1..]) ==> key in Keys(t) by {
        if key in Keys(t[1..]) {
          var i :| 0 <= i < |t[1..]| && t[1..][i].0 == key;
          assert t[i + 1].0 == key;
        }
      }
      assert key in Keys(t) ==> key in Keys(t[1..]) by {
        if key in Keys(t) {
          var i :| 0 <= i < |t| && t[i].0 == key;
          assert i != 0;
          assert t[1..][i - 1].0 == key;
        }
      }
      if r.Some? then
        var i :| 0 <= i < |t[1..]| && t[1..][i] == (key, r.value);
        assert t[i + 1] == (key, r.value);
        r
      else
        r
  }

  /** Keys of a table are all different. */
  ghost predicate UniqueKeys(t: Table)
  {
    forall i, j :: 0 <= i < j < |t| ==> t[i].0 != t[j].0
  }

  /** In a table with unique keys the lookup of an entry's key finds that entry's value. */
  lemma {:induction false} LookupEntry(t: Table, i: nat)
    requires UniqueKeys(t) && i < |t|
    ensures Lookup(t, t[i].0) == Some(t[i].1)
    decreases |t|
  {
    if i > 0 {
      assert t[0].0 != t[i].0;
      assert UniqueKeys(t[1..]) by {
        forall a, b | 0 <= a < b < |t[1..]| ensures t[1..][a].0 != t[1..][b].0 {
          assert t[a + 1].0 != t[b + 1].0;
        }
      }
      assert t[1..][i - 1] == t[i];
      LookupEntry(t[1..], i - 1);
    }
  }
}
