/** The client-side `route()` helper: a route name is looked up in a fixed table of paths and
    each parameter replaces the first `:key` placeholder of the path. Parameter values are
    taken as already converted to strings. */
module Route {
  import opened Wrappers
  import opened Text
  import opened Records

  /** The route table, in declaration order. */
  const Routes: Table := [
    ("dashboard", "/dashboard"),
    ("login", "/login"),
    ("register", "/register"),
    ("password.request", "/forgot-password"),
    ("password.reset", "/reset-password"),
    ("verification.notice", "/verify-email"),
    ("password.confirm", "/confirm-password"),
    ("profile.edit", "/profile/edit"),
    ("logout", "/logout")
  ]

  /** The path a name stands for: `routes[name] ?? '/'`. */
  function PathOf(name: string): (p: string)
    ensures name in Keys(Routes) ==> exists i :: 0 <= i < |Routes| && Routes[i] == (name, p)
    ensures name !in Keys(Routes) ==> p == "/"
  {
    match Lookup(Routes, name)
    case Some(p) => p
    case None => "/"
  }

  /** The placeholder a parameter key fills. */
  function Placeholder(key: string): (pat: string)
    ensures |pat| == |key| + 1 && pat[0] == ':'
  {
    ":" + key
  }

  /** The substitution loop: each entry in turn replaces the first occurrence of its
      placeholder in the current result. */
  function Substitute(path: string, params: seq<(string, string)>): (r: string)
    ensures params == [] ==> r == path
    ensures |params| == 1 ==> r == ReplaceFirst(path, Placeholder(params[0].0), params[0].1)
    decreases |params|
  {
    if params == [] then path
    else Substitute(ReplaceFirst(path, Placeholder(params[0].0), params[0].1), params[1..])
  }

  /** `route(name, params)`; `None` is a call without parameters. */
  function RouteTo(name: string, params: Option<seq<(string, string)>>): (r: string)
    ensures params.None? ==> r == PathOf(name)
    ensures params == Some([]) ==> r == PathOf(name)
  {
    match params
    case None => PathOf(name)
    case Some(ps) => Substitute(PathOf(name), ps)
  }

  /** Parameters are applied in entry order: substituting `a + b` is substituting `a`, then `b`. */
  lemma {:induction false} SubstituteAppend(path: string, a: seq<(string, string)>, b: seq<(string, string)>)
    ensures Substitute(path, a + b) == Substitute(Substitute(path, a), b)
    decreases |a|
  {
    if a == [] {
      assert a + b == b;
    } else {
      assert (a + b)[0] == a[0];
      assert (a + b)[1..] == a[1..] + b;
      SubstituteAppend(ReplaceFirst(path, Placeholder(a[0].0), a[0].1), a[1..], b);
    }
  }

  /** One parameter whose placeholder is in the path replaces its first occurrence and
      nothing else, by the value as `replace` expands it for that match. */
  lemma SubstituteOne(path: string, key: string, value: string, i: nat)
    requires FirstOccurrence(path, Placeholder(key), i)
    ensures var after := path[i + |key| + 1..];
      Substitute(path, [(key, value)]) == path[..i] + Expand(value, Placeholder(key), path[..i], after) + after
  {
    SubstituteSingle(path, key, value);
    ReplaceFirstAt(path, Placeholder(key), value, i, i + |key| + 1);
  }

  /** A single parameter is one `replace` call. */
  lemma SubstituteSingle(path: string, key: string, value: string)
    ensures Substitute(path, [(key, value)]) == ReplaceFirst(path, Placeholder(key), value)
  {
    assert [(key, value)][0] == (key, value) && [(key, value)][1..] == [];
  }

  /** A value with no `$` token is put in place of the placeholder as it is. */
  lemma SubstitutePlain(path: string, key: string, value: string, i: nat)
    requires FirstOccurrence(path, Placeholder(key), i) && PlainTemplate(value)
    ensures Substitute(path, [(key, value)]) == path[..i] + value + path[i + |key| + 1..]
  {
    SubstituteOne(path, key, value, i);
  }

  /** A value is not inserted literally: the value `$&` puts the matched placeholder itself
      back, so the path comes out unchanged. */
  lemma MatchTokenKeepsPlaceholder(path: string, key: string, i: nat)
    requires FirstOccurrence(path, Placeholder(key), i)
    ensures Substitute(path, [(key, "$&")]) == path
  {
    var pat, j := Placeholder(key), i + |key| + 1;
    var before, after := path[..i], path[j..];
    assert Substitute(path, [(key, "$&")]) == before + Expand("$&", pat, before, after) + after by {
      SubstituteOne(path, key, "$&", i);
    }
    assert Expand("$&", pat, before, after) == pat by {
      ExpandToken('&', "", pat, before, after);
      assert "$&" == ['$', '&'] + "";
    }
    assert path[i..j] == pat by {
      assert OccursAt(path, pat, i);
    }
    assert path == before + path[i..j] + after;
  }

  /** A parameter whose placeholder does not occur leaves the result unchanged. */
  lemma AbsentPlaceholderIsNoOp(path: string, key: string, value: string)
    requires !Occurs(path, Placeholder(key))
    ensures Substitute(path, [(key, value)]) == path
  {
    assert [(key, value)][1..] == [];
  }

  /** A path without a colon holds no placeholder, so no parameter changes it. */
  lemma {:induction false} NoColonNoChange(path: string, params: seq<(string, string)>)
    requires ':' !in path
    ensures Substitute(path, params) == path
    decreases |params|
  {
    if params != [] {
      var pat := Placeholder(params[0].0);
      forall k | 0 <= k && k + |pat| <= |path| ensures !OccursAt(path, pat, k) {
        assert path[k..k + |pat|][0] == path[k] && path[k] in path;
      }
      NoColonNoChange(path, params[1..]);
    }
  }

  /** No path in the table, nor the fallback, contains a colon. */
  lemma PathsHaveNoColon(name: string)
    ensures ':' !in PathOf(name)
  {
    TablePathsHaveNoColon();
  }

  /** No path in the table contains a colon. */
  lemma TablePathsHaveNoColon()
    ensures forall i :: 0 <= i < |Routes| ==> ':' !in Routes[i].1
  {
    forall i | 0 <= i < |Routes| ensures ':' !in Routes[i].1 {
      assert Routes[i].1 in ["/dashboard", "/login", "/register", "/forgot-password", "/reset-password",
                             "/verify-email", "/confirm-password", "/profile/edit", "/logout"];
    }
  }

  /** Since no path has a placeholder, parameters never change the route. */
  lemma ParamsNeverChangeRoute(name: string, params: Option<seq<(string, string)>>)
    ensures RouteTo(name, params) == RouteTo(name, None)
  {
    PathsHaveNoColon(name);
    if params.Some? {
      NoColonNoChange(PathOf(name), params.value);
    }
  }

  /** Every name in the table gets its own path; any other name gets "/". */
  lemma KnownNames(i: nat)
    requires i < |Routes|
    ensures PathOf(Routes[i].0) == Routes[i].1
  {
    assert UniqueKeys(Routes);
    LookupEntry(Routes, i);
  }
}
