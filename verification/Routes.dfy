/** Route resolution in the frontend middleware. */
module Routes {

  datatype Option<+T> = None | Some(value: T)

  /** A redirect target: workspace path, tab, drawer. */
  datatype Entry = Entry(p: string, t: Option<string>, d: Option<string>)

  type Table = map<string, Entry>

  // ----- split and join -----

  /** Position of the first '/', or the length. */
  function FirstSlash(s: string): (i: nat)
    ensures i <= |s|
    ensures i < |s| ==> s[i] == '/'
    ensures forall j :: 0 <= j < i ==> s[j] != '/'
  {
    if s == [] || s[0] == '/' then 0 else 1 + FirstSlash(s[1..])
  }

  /** s.split("/"). */
  function Split(s: string): (parts: seq<string>)
    ensures |parts| > 0
    decreases |s|
  {
    var i := FirstSlash(s);
    if i == |s| then [s] else [s[..i]] + Split(s[i+1..])
  }

  /** parts.join("/"). */
  function Join(parts: seq<string>): string {
    if parts == [] then ""
    else if |parts| == 1 then parts[0]
    else parts[0] + "/" + Join(parts[1..])
  }

  lemma {:induction false} JoinFirst(first: string, rest: seq<string>)
    requires rest != []
    ensures Join([first] + rest) == first + "/" + Join(rest)
  {
    assert ([first] + rest)[1..] == rest;
  }

  lemma AroundSlash(s: string, i: nat)
    requires i < |s| && s[i] == '/'
    ensures s == s[..i] + "/" + s[i+1..]
  {
  }

  lemma {:induction false} JoinSplit(s: string)
    ensures Join(Split(s)) == s
    decreases |s|
  {
    var i := FirstSlash(s);
    if i < |s| {
      JoinSplit(s[i+1..]);
      JoinFirst(s[..i], Split(s[i+1..]));
      AroundSlash(s, i);
    }
  }

  lemma {:induction false} JoinConcat(a: seq<string>, b: seq<string>)
    requires a != [] && b != []
    ensures Join(a + b) == Join(a) + "/" + Join(b)
  {
    if |a| == 1 {
      assert (a + b)[1..] == b;
    } else {
      JoinConcat(a[1..], b);
      assert (a + b)[1..] == a[1..] + b;
    }
  }

  lemma FirstSlashOf(s: string, i: nat)
    requires i <= |s| && (i < |s| ==> s[i] == '/') && forall j :: 0 <= j < i ==> s[j] != '/'
    ensures FirstSlash(s) == i
  {
  }

  lemma SplitAt(s: string, i: nat)
    requires i < |s| && s[i] == '/' && forall j :: 0 <= j < i ==> s[j] != '/'
    ensures Split(s) == [s[..i]] + Split(s[i+1..])
  {
    FirstSlashOf(s, i);
  }

  /** A string without a slash before the joining one. */
  lemma SplitFirst(a: string, b: string)
    requires FirstSlash(a) == |a|
    ensures Split(a + "/" + b) == [a] + Split(b)
  {
    var s := a + "/" + b;
    SplitAt(s, |a|);
    assert s[..|a|] == a && s[|a|+1..] == b;
  }

  lemma SlicesOfConcat(a: string, b: string, i: nat)
    requires i < |a|
    ensures (a + "/" + b)[..i] == a[..i]
    ensures (a + "/" + b)[i+1..] == a[i+1..] + "/" + b
  {
  }

  lemma SplitWhereFirst(a: string, b: string, i: nat)
    requires i == FirstSlash(a) < |a|
    ensures Split(a + "/" + b) == [a[..i]] + Split(a[i+1..] + "/" + b)
  {
    SlicesOfConcat(a, b, i);
    var s := a + "/" + b;
    assert s[i] == a[i] && forall j :: 0 <= j < i ==> s[j] == a[j];
    SplitAt(s, i);
  }

  lemma Regroup(head: string, middle: seq<string>, tail: seq<string>)
    ensures [head] + (middle + tail) == [head] + middle + tail
  {
  }

  /** A string with one, after which the claim holds. */
  lemma SplitLater(a: string, b: string, i: nat)
    requires i == FirstSlash(a) < |a|
    requires Split(a[i+1..] + "/" + b) == Split(a[i+1..]) + Split(b)
    ensures Split(a + "/" + b) == Split(a) + Split(b)
  {
    SplitWhereFirst(a, b, i);
    SplitAt(a, i);
    Regroup(a[..i], Split(a[i+1..]), Split(b));
  }

  lemma {:induction false} SplitConcat(a: string, b: string)
    ensures Split(a + "/" + b) == Split(a) + Split(b)
    decreases |a|
  {
    var i := FirstSlash(a);
    if i == |a| {
      SplitFirst(a, b);
    } else {
      SplitConcat(a[i+1..], b);
      SplitLater(a, b, i);
    }
  }

  // ----- prefixes that end at a slash -----

  /** The path starts with k + "/". */
  predicate SegmentPrefix(k: string, path: string) {
    |k| < |path| && path[..|k|] == k && path[|k|] == '/'
  }

  /** The i-th prefix the loop looks up. */
  function Leading(path: string, i: nat): string
    requires i <= |Split(path)|
  {
    Join(Split(path)[..i])
  }

  lemma LeadingIsSegmentPrefix(path: string, i: nat)
    requires 1 <= i < |Split(path)|
    ensures SegmentPrefix(Leading(path, i), path)
  {
    var parts := Split(path);
    JoinSplit(path);
    JoinConcat(parts[..i], parts[i..]);
    assert parts[..i] + parts[i..] == parts;
  }

  /** Every prefix that ends at a slash is one of them, at the position given by its own number of parts. */
  lemma SegmentPrefixIsLeading(k: string, path: string)
    requires SegmentPrefix(k, path)
    ensures |Split(k)| < |Split(path)| && Leading(path, |Split(k)|) == k
  {
    assert path == k + "/" + path[|k|+1..];
    SplitConcat(k, path[|k|+1..]);
    assert Split(path)[..|Split(k)|] == Split(k);
    JoinSplit(k);
  }

  lemma LeadingGrows(path: string, i: nat, j: nat)
    requires 1 <= i < j <= |Split(path)|
    ensures |Leading(path, i)| < |Leading(path, j)|
  {
    var parts := Split(path);
    JoinConcat(parts[..i], parts[i..j]);
    assert parts[..i] + parts[i..j] == parts[..j];
  }

  lemma SlashMeansTwoParts(s: string)
    ensures |Split(s)| >= 2 <==> '/' in s
  {
    assert FirstSlash(s) < |s| ==> s[FirstSlash(s)] == '/';
  }

  // ----- resolution -----

  /** The loop of matchRedirect from position i down to 2. */
  function FromPrefixes(table: Table, path: string, i: nat): Option<Entry>
    requires i <= |Split(path)|
  {
    if i < 2 then None
    else if Leading(path, i) in table then Some(table[Leading(path, i)])
    else FromPrefixes(table, path, i - 1)
  }

  /** matchRedirect. */
  function Resolve(table: Table, bypass: set<string>, path: string): Option<Entry> {
    if path in bypass then None
    else if path in table then Some(table[path])
    else FromPrefixes(table, path, |Split(path)| - 1)
  }

  /** A key that applies to the path. */
  predicate Applies(table: Table, k: string, path: string) {
    k in table && (k == path || (SegmentPrefix(k, path) && '/' in k))
  }

  ghost predicate Longest(table: Table, k: string, path: string) {
    Applies(table, k, path) && forall k' :: Applies(table, k', path) ==> |k'| <= |k|
  }

  /** The position at which the loop finds its entry, when it does. */
  lemma {:induction false} LoopFindsLongest(table: Table, path: string, i: nat) returns (at: nat)
    requires i < |Split(path)|
    ensures at <= i
    ensures FromPrefixes(table, path, i).None? ==> forall j :: 2 <= j <= i ==> Leading(path, j) !in table
    ensures FromPrefixes(table, path, i).Some? ==>
            && 2 <= at && Leading(path, at) in table && FromPrefixes(table, path, i).value == table[Leading(path, at)]
            && forall n :: at < n <= i ==> Leading(path, n) !in table
  {
    at := i;
    if i >= 2 && Leading(path, i) !in table {
      at := LoopFindsLongest(table, path, i - 1);
    }
  }

  /** The prefixes looked up are, among the keys, exactly those that apply without being the path itself. */
  lemma LoopSeesWhatApplies(table: Table, path: string)
    ensures forall j :: 2 <= j < |Split(path)| && Leading(path, j) in table ==> Applies(table, Leading(path, j), path)
    ensures forall k :: Applies(table, k, path) && k != path ==>
              2 <= |Split(k)| < |Split(path)| && Leading(path, |Split(k)|) == k
  {
    forall j | 2 <= j < |Split(path)| && Leading(path, j) in table ensures Applies(table, Leading(path, j), path) {
      LeadingIsSegmentPrefix(path, j);
      LeadingGrows(path, 1, j);
      JoinConcat(Split(path)[..1], Split(path)[1..j]);
      assert Split(path)[..1] + Split(path)[1..j] == Split(path)[..j];
      assert Leading(path, j)[|Join(Split(path)[..1])|] == '/';
    }
    forall k | Applies(table, k, path) && k != path
      ensures 2 <= |Split(k)| < |Split(path)| && Leading(path, |Split(k)|) == k
    {
      SegmentPrefixIsLeading(k, path);
      SlashMeansTwoParts(k);
    }
  }

  lemma SamePathPrefixes(k: string, k': string, path: string)
    requires k <= path && k' <= path && |k| == |k'|
    ensures k == k'
  {
    assert k == path[..|k|] && k' == path[..|k'|];
  }

  /** Of the keys that are prefixes looked up, the last position holds the only longest one. */
  lemma LastPositionIsLongest(table: Table, path: string, at: nat)
    requires path !in table && 2 <= at < |Split(path)| && Leading(path, at) in table
    requires forall n :: at < n < |Split(path)| ==> Leading(path, n) !in table
    ensures Longest(table, Leading(path, at), path)
    ensures forall k :: Longest(table, k, path) ==> k == Leading(path, at)
  {
    LoopSeesWhatApplies(table, path);
    var top := Leading(path, at);
    forall k | Applies(table, k, path) ensures |k| < |top| || k == top {
      var n := |Split(k)|;
      assert Leading(path, n) == k && n <= at;
      if n < at {
        LeadingGrows(path, n, at);
      }
    }
  }

  /** The loop returns the entry of the longest applicable key, when the path itself is not one. */
  lemma LoopIsLongest(table: Table, path: string)
    requires path !in table
    ensures var r := FromPrefixes(table, path, |Split(path)| - 1);
            && (r.None? <==> forall k :: !Applies(table, k, path))
            && (r.Some? ==> exists k :: Longest(table, k, path))
            && forall k :: Longest(table, k, path) ==> r == Some(table[k])
  {
    var r := FromPrefixes(table, path, |Split(path)| - 1);
    var at := LoopFindsLongest(table, path, |Split(path)| - 1);
    if r.Some? {
      LastPositionIsLongest(table, path, at);
    } else {
      LoopSeesWhatApplies(table, path);
    }
  }

  /**
   For every table, bypass set and path: nothing for a bypassed path, else the entry of the longest key that is the
   path or that the path continues after a slash, and nothing if there is no such key.
   */
  lemma ResolveIsLongest(table: Table, bypass: set<string>, path: string)
    ensures Resolve(table, bypass, path).None? <==> path in bypass || forall k :: !Applies(table, k, path)
    ensures Resolve(table, bypass, path).Some? ==> exists k :: Longest(table, k, path)
    ensures forall k :: path !in bypass && Longest(table, k, path) ==> Resolve(table, bypass, path) == Some(table[k])
  {
    if path in table {
      assert Longest(table, path, path);
      forall k | Longest(table, k, path) ensures k == path {
        SamePathPrefixes(k, path, path);
      }
    } else {
      LoopIsLongest(table, path);
    }
  }

  /** When every key starts with a slash, as all keys of the middleware do, the condition on slashes is void. */
  lemma ApplicableKeysOfRootedTable(table: Table, k: string, path: string)
    requires forall key :: key in table ==> |key| > 0 && key[0] == '/'
    ensures Applies(table, k, path) <==> k in table && (k == path || SegmentPrefix(k, path))
  {
  }

  // ----- query parameters -----

  type Params = seq<(string, string)>

  function Others(params: Params, name: string): Params {
    if params == [] then []
    else if params[0].0 == name then Others(params[1..], name)
    else [params[0]] + Others(params[1..], name)
  }

  /** URLSearchParams.set: the first pair of that name gets the value, later ones go; without one, append. */
  function SetParam(params: Params, name: string, value: string): Params {
    if params == [] then [(name, value)]
    else if params[0].0 == name then [(name, value)] + Others(params[1..], name)
    else [params[0]] + SetParam(params[1..], name, value)
  }

  function Named(params: Params, name: string): seq<string> {
    if params == [] then []
    else if params[0].0 == name then [params[0].1] + Named(params[1..], name)
    else Named(params[1..], name)
  }

  lemma {:induction false} OthersHasNone(params: Params, name: string)
    ensures Named(Others(params, name), name) == [] && Others(Others(params, name), name) == Others(params, name)
  {
    if params != [] {
      OthersHasNone(params[1..], name);
      if params[0].0 != name {
        assert Others(params, name)[1..] == Others(params[1..], name);
      }
    }
  }

  /** After set there is exactly one pair of that name, and all others are as before, in order. */
  lemma {:induction false} SetParamLeavesOne(params: Params, name: string, value: string)
    ensures Named(SetParam(params, name, value), name) == [value]
    ensures Others(SetParam(params, name, value), name) == Others(params, name)
  {
    if params != [] {
      var result := SetParam(params, name, value);
      if params[0].0 == name {
        OthersHasNone(params[1..], name);
        assert result[1..] == Others(params[1..], name);
      } else {
        SetParamLeavesOne(params[1..], name, value);
        assert result[1..] == SetParam(params[1..], name, value);
      }
    }
  }

  lemma {:induction false} NamedOfOthers(params: Params, a: string, b: string)
    requires a != b
    ensures Named(Others(params, b), a) == Named(params, a)
  {
    if params != [] {
      NamedOfOthers(params[1..], a, b);
      if params[0].0 != b {
        assert Others(params, b)[1..] == Others(params[1..], b);
      }
    }
  }

  lemma {:induction false} OthersCommute(params: Params, a: string, b: string)
    ensures Others(Others(params, a), b) == Others(Others(params, b), a)
  {
    if params != [] {
      OthersCommute(params[1..], a, b);
      if params[0].0 != a {
        assert Others(params, a)[1..] == Others(params[1..], a);
      }
      if params[0].0 != b {
        assert Others(params, b)[1..] == Others(params[1..], b);
      }
    }
  }

  /** Every pair of the name, in order. */
  lemma {:induction false} NamedConcat(a: Params, b: Params, name: string)
    ensures Named(a + b, name) == Named(a, name) + Named(b, name)
  {
    if a == [] {
      assert a + b == b;
    } else {
      assert (a + b)[1..] == a[1..] + b;
      NamedConcat(a[1..], b, name);
    }
  }

  lemma {:induction false} OthersConcat(a: Params, b: Params, name: string)
    ensures Others(a + b, name) == Others(a, name) + Others(b, name)
  {
    if a == [] {
      assert a + b == b;
    } else {
      assert (a + b)[1..] == a[1..] + b;
      OthersConcat(a[1..], b, name);
    }
  }

  lemma OthersOfOne(pair: (string, string), name: string)
    ensures Others([pair], name) == if pair.0 == name then [] else [pair]
  {
    assert [pair][1..] == [];
  }

  /** Without a pair of the name the new one goes to the end. */
  lemma {:induction false} SetParamAppends(params: Params, name: string, value: string)
    requires forall i :: 0 <= i < |params| ==> params[i].0 != name
    ensures SetParam(params, name, value) == params + [(name, value)]
  {
    if params != [] {
      SetParamAppends(params[1..], name, value);
    }
  }

  /** With one, the first pair takes the value where it stands, and only later pairs of the name go. */
  lemma {:induction false} SetParamReplaces(params: Params, i: nat, name: string, value: string)
    requires i < |params| && params[i].0 == name && forall j :: 0 <= j < i ==> params[j].0 != name
    ensures SetParam(params, name, value) == params[..i] + [(name, value)] + Others(params[i+1..], name)
  {
    if i > 0 {
      SetParamReplaces(params[1..], i - 1, name, value);
      assert params[1..][..i-1] == params[1..i] && params[..i] == [params[0]] + params[1..i];
      assert params[1..][i..] == params[i+1..];
    }
  }

  /** The object URLSearchParams, changed in place. */
  class SearchParams {
    var pairs: Params

    constructor (pairs: Params)
      ensures this.pairs == pairs
    {
      this.pairs := pairs;
    }

    method Set(name: string, value: string)
      modifies this
      ensures pairs == SetParam(old(pairs), name, value)
    {
      var i := 0;
      while i < |pairs| && pairs[i].0 != name
        invariant 0 <= i <= |pairs| && pairs == old(pairs)
        invariant SetParam(pairs, name, value) == pairs[..i] + SetParam(pairs[i..], name, value)
      {
        SetParamOnce(pairs, i, name, value);
        i := i + 1;
      }
      if i == |pairs| {
        assert pairs[..i] == pairs;
        pairs := pairs + [(name, value)];
      } else {
        assert pairs[i..][1..] == pairs[i+1..];
        var kept := pairs[..i] + [(name, value)];
        var j := i + 1;
        while j < |pairs|
          invariant i < j <= |pairs| && pairs == old(pairs)
          invariant SetParam(pairs, name, value) == kept + Others(pairs[j..], name)
        {
          OthersOnce(pairs, j, name, kept);
          if pairs[j].0 != name {
            kept := kept + [pairs[j]];
          }
          j := j + 1;
        }
        pairs := kept;
      }
    }
  }

  lemma SetParamOnce(params: Params, i: nat, name: string, value: string)
    requires i < |params| && params[i].0 != name
    ensures params[..i] + SetParam(params[i..], name, value) == params[..i+1] + SetParam(params[i+1..], name, value)
  {
    assert params[i..][1..] == params[i+1..];
    assert params[..i+1] == params[..i] + [params[i]];
  }

  lemma OthersOnce(params: Params, j: nat, name: string, kept: Params)
    requires j < |params|
    ensures kept + Others(params[j..], name) ==
            (if params[j].0 != name then kept + [params[j]] else kept) + Others(params[j+1..], name)
  {
    assert params[j..][1..] == params[j+1..];
  }

  // ----- the middleware -----

  datatype Response =
    | Login(nextPath: string, nextQuery: Params)
    | Pass
    | RedirectTo(path: string, query: Params)

  /** `if (match.t) params.set("tab", match.t)`: an empty string counts as absent. */
  function SetIfPresent(params: Params, name: string, value: Option<string>): Params {
    if value.Some? && value.value != "" then SetParam(params, name, value.value) else params
  }

  function Destination(query: Params, e: Entry): Params {
    SetIfPresent(SetIfPresent(query, "tab", e.t), "drawer", e.d)
  }

  function Respond(table: Table, bypass: set<string>, cookie: bool, path: string, query: Params): Response {
    if !cookie then Login(path, query)
    else
      var entry := Resolve(table, bypass, path);
      if entry.None? then Pass else RedirectTo(entry.value.p, Destination(query, entry.value))
  }

  predicate Present(x: Option<string>) {
    x.Some? && x.value != ""
  }

  /** The new query has the table's tab and drawer exactly once, and every other parameter as before, in order. */
  lemma DestinationQuery(query: Params, e: Entry)
    ensures var q := Destination(query, e);
            && Named(q, "tab") == (if Present(e.t) then [e.t.value] else Named(query, "tab"))
            && Named(q, "drawer") == (if Present(e.d) then [e.d.value] else Named(query, "drawer"))
            && Others(Others(q, "tab"), "drawer") == Others(Others(query, "tab"), "drawer")
  {
    var mid := SetIfPresent(query, "tab", e.t);
    var q := Destination(query, e);
    assert "tab"[0] != "drawer"[0];
    assert "tab" != "drawer";
    if Present(e.t) {
      SetParamLeavesOne(query, "tab", e.t.value);
    }
    NamedOfOthers(mid, "drawer", "tab");
    NamedOfOthers(query, "drawer", "tab");
    if Present(e.d) {
      SetParamLeavesOne(mid, "drawer", e.d.value);
      NamedOfOthers(mid, "tab", "drawer");
      NamedOfOthers(q, "tab", "drawer");
      OthersCommute(mid, "tab", "drawer");
      OthersCommute(q, "tab", "drawer");
    }
  }

  /** The key is the path, or, with a slash in it, the path goes on after it with a slash. */
  predicate Fits(k: string, path: string) {
    k == path || ('/' in k && k + "/" <= path)
  }

  lemma FitsMeansApplies(table: Table, k: string, path: string)
    ensures Applies(table, k, path) <==> k in table && Fits(k, path)
  {
    if SegmentPrefix(k, path) {
      AroundSlash(path, |k|);
    }
    if k + "/" <= path {
      assert path[..|k|+1] == k + "/";
      assert path[..|k|] == (k + "/")[..|k|] == k && path[|k|] == (k + "/")[|k|] == '/';
    }
  }

  lemma LongestFits(table: Table, path: string, k: string)
    requires k in table && Fits(k, path) && forall k' :: k' in table && Fits(k', path) ==> |k'| <= |k|
    ensures Longest(table, k, path)
  {
    FitsMeansApplies(table, k, path);
    forall k' | Applies(table, k', path) ensures |k'| <= |k| {
      FitsMeansApplies(table, k', path);
    }
  }

  /** Without the cookie every request goes to the login page, which keeps its path and query. */
  lemma NoCookieMeansLogin(table: Table, bypass: set<string>, path: string, query: Params)
    ensures Respond(table, bypass, false, path, query) == Login(path, query)
  {
  }

  /** With it, the page is served exactly for a bypassed path or one that no key of the table fits. */
  lemma PassIff(table: Table, bypass: set<string>, path: string, query: Params)
    ensures Respond(table, bypass, true, path, query) == Pass <==>
            path in bypass || forall k :: k in table ==> !(k == path || ('/' in k && k + "/" <= path))
    ensures !Respond(table, bypass, true, path, query).Login?
  {
    ResolveIsLongest(table, bypass, path);
    forall k ensures Applies(table, k, path) <==> k in table && (k == path || ('/' in k && k + "/" <= path)) {
      FitsMeansApplies(table, k, path);
    }
  }

  /**
   Otherwise the answer is a redirect to the page of the longest key that fits. Its query has the tab and the drawer of
   that key, each once, where the key has one that is not empty, and every other parameter as it was, in order.
   */
  lemma RespondRedirects(table: Table, bypass: set<string>, path: string, query: Params, k: string)
    requires path !in bypass && k in table && (k == path || ('/' in k && k + "/" <= path))
    requires forall k' :: k' in table && Fits(k', path) ==> |k'| <= |k|
    ensures var r, e := Respond(table, bypass, true, path, query), table[k];
            && r.RedirectTo? && r.path == e.p
            && Named(r.query, "tab") == (if e.t.Some? && e.t.value != "" then [e.t.value] else Named(query, "tab"))
            && Named(r.query, "drawer") ==
               (if e.d.Some? && e.d.value != "" then [e.d.value] else Named(query, "drawer"))
            && Others(Others(r.query, "tab"), "drawer") == Others(Others(query, "tab"), "drawer")
  {
    LongestFits(table, path, k);
    ResolveIsLongest(table, bypass, path);
    DestinationQuery(query, table[k]);
  }

  /** On a query that has neither, they are put at the end, the tab first. */
  lemma RespondAppends(table: Table, bypass: set<string>, path: string, query: Params, k: string)
    requires path !in bypass && k in table && (k == path || ('/' in k && k + "/" <= path))
    requires forall k' :: k' in table && Fits(k', path) ==> |k'| <= |k|
    requires forall i :: 0 <= i < |query| ==> query[i].0 != "tab" && query[i].0 != "drawer"
    ensures var e := table[k];
            Respond(table, bypass, true, path, query) ==
            RedirectTo(e.p, query + (if e.t.Some? && e.t.value != "" then [("tab", e.t.value)] else [])
                                  + (if e.d.Some? && e.d.value != "" then [("drawer", e.d.value)] else []))
  {
    RespondRedirects(table, bypass, path, query, k);
    LongestFits(table, path, k);
    ResolveIsLongest(table, bypass, path);
    AppendsBoth(query, table[k]);
  }

  lemma AppendsBoth(query: Params, e: Entry)
    requires forall i :: 0 <= i < |query| ==> query[i].0 != "tab" && query[i].0 != "drawer"
    ensures Destination(query, e) == query + (if e.t.Some? && e.t.value != "" then [("tab", e.t.value)] else [])
                                           + (if e.d.Some? && e.d.value != "" then [("drawer", e.d.value)] else [])
  {
    var mid := SetIfPresent(query, "tab", e.t);
    assert "tab"[0] != "drawer"[0];
    assert "tab" != "drawer";
    if Present(e.t) { SetParamAppends(query, "tab", e.t.value); }
    assert mid == query + (if e.t.Some? && e.t.value != "" then [("tab", e.t.value)] else []);
    if Present(e.d) { SetParamAppends(mid, "drawer", e.d.value); }
  }

  /** The entry that resolution returns belongs to some key. */
  lemma WhichKey(table: Table, bypass: set<string>, path: string) returns (k: string)
    requires Resolve(table, bypass, path).Some?
    ensures k in table && Resolve(table, bypass, path).value == table[k] && Applies(table, k, path)
  {
    if path in table {
      k := path;
    } else {
      var at := LoopFindsLongest(table, path, |Split(path)| - 1);
      k := Leading(path, at);
      LoopSeesWhatApplies(table, path);
    }
  }

  /** Some path is redirected by this key: itself, or one below it. */
  predicate Used(bypass: set<string>, k: string) {
    k !in bypass || '/' in k
  }

  function Filler(n: nat): (s: string)
    ensures |s| == n && '/' !in s
  {
    seq(n, _ => 'x')
  }

  lemma {:induction false} Bound(s: set<string>) returns (n: nat)
    ensures forall x :: x in s ==> |x| <= n
    decreases s
  {
    n := 0;
    if s != {} {
      var x :| x in s;
      n := Bound(s - {x});
      if n < |x| {
        n := |x|;
      }
    }
  }

  /** A path below a key, with one more part that is longer than any key or bypassed path. */
  lemma KeyIsUsed(table: Table, bypass: set<string>, k: string) returns (path: string)
    requires k in table && Used(bypass, k)
    ensures Resolve(table, bypass, path) == Some(table[k])
  {
    path := k;
    if k in bypass {
      var n := Bound(table.Keys + bypass);
      path := k + "/" + Filler(n);
      assert path !in table.Keys + bypass;
      assert SegmentPrefix(k, path);
      forall other | Applies(table, other, path) ensures |other| <= |k| {
        assert other in table.Keys + bypass;
        assert forall i :: |k| < i < |path| ==> path[i] == Filler(n)[i - |k| - 1];
      }
      assert Longest(table, k, path);
      ResolveIsLongest(table, bypass, path);
    }
  }

  /** If this request is redirected, the page it is redirected to is served. */
  predicate OneHop(table: Table, bypass: set<string>, path: string, query: Params) {
    var r := Respond(table, bypass, true, path, query);
    r.RedirectTo? ==> Respond(table, bypass, true, r.path, r.query) == Pass
  }

  /** Every redirect takes one hop exactly when the target of every key in use resolves to nothing. */
  lemma OneHopIff(table: Table, bypass: set<string>)
    ensures (forall path, query :: OneHop(table, bypass, path, query)) <==>
            forall k :: k in table && Used(bypass, k) ==> Resolve(table, bypass, table[k].p).None?
  {
    if forall path, query :: OneHop(table, bypass, path, query) {
      forall k | k in table && Used(bypass, k) ensures Resolve(table, bypass, table[k].p).None? {
        var path := KeyIsUsed(table, bypass, k);
        assert OneHop(table, bypass, path, []);
      }
    }
    if forall k :: k in table && Used(bypass, k) ==> Resolve(table, bypass, table[k].p).None? {
      forall path, query ensures OneHop(table, bypass, path, query) {
        if Resolve(table, bypass, path).Some? {
          var k := WhichKey(table, bypass, path);
        }
      }
    }
  }

  /** No target, and no prefix of a target that ends at a slash, is a key. */
  predicate TargetsAreNotKeys(table: Table) {
    forall k, k' :: k in table && k' in table ==> k' != table[k].p && !SegmentPrefix(k', table[k].p)
  }

  /** It is enough that no target, and no prefix of one that ends at a slash, is a key. */
  lemma SeparateTargetsHopOnce(table: Table, bypass: set<string>, path: string, query: Params)
    requires TargetsAreNotKeys(table)
    ensures OneHop(table, bypass, path, query)
  {
    forall k | k in table ensures Resolve(table, bypass, table[k].p).None? {
      ResolveIsLongest(table, bypass, table[k].p);
    }
    OneHopIff(table, bypass);
  }

  /** matchRedirect as the loop over positions that it is. */
  method MatchRedirect(table: Table, bypass: set<string>, path: string) returns (r: Option<Entry>)
    ensures r == Resolve(table, bypass, path)
    ensures r.None? <==> path in bypass || forall k :: !Applies(table, k, path)
    ensures r.Some? ==> exists k :: Longest(table, k, path) && r == Some(table[k])
  {
    ResolveIsLongest(table, bypass, path);
    if path in bypass { return None; }
    if path in table { return Some(table[path]); }
    var parts := Split(path);
    var i := |parts| - 1;
    while i >= 2
      invariant 0 <= i < |parts| && FromPrefixes(table, path, i) == FromPrefixes(table, path, |parts| - 1)
    {
      var prefix := Join(parts[..i]);
      if prefix in table { return Some(table[prefix]); }
      i := i - 1;
    }
    r := None;
  }
}
