/** The second copy of route resolution, in the script that audits navigation targets. */
module RouteAudit {
  import opened Routes

  datatype AuditEntry = AuditEntry(workspace: string, tab: Option<string>, drawer: Option<string>)

  type AuditTable = map<string, AuditEntry>

  function Translate(e: Entry): AuditEntry {
    AuditEntry(e.p, e.t, e.d)
  }

  /** The script's table says what the middleware's says. */
  function Copy(table: Table): AuditTable {
    map k | k in table :: Translate(table[k])
  }

  function AuditPrefixes(table: AuditTable, route: string, i: nat): Option<AuditEntry>
    requires i <= |Split(route)|
  {
    if i < 2 then None
    else if Leading(route, i) in table then Some(table[Leading(route, i)])
    else AuditPrefixes(table, route, i - 1)
  }

  /** middlewareMatch: unlike the middleware it looks for an exact key before it looks at the bypass set. */
  function AuditMatch(table: AuditTable, bypass: set<string>, route: string): Option<AuditEntry> {
    if route in table then Some(table[route])
    else if route in bypass then None
    else AuditPrefixes(table, route, |Split(route)| - 1)
  }

  method MiddlewareMatch(table: AuditTable, bypass: set<string>, route: string) returns (r: Option<AuditEntry>)
    ensures r == AuditMatch(table, bypass, route)
  {
    if route in table { return Some(table[route]); }
    if route in bypass { return None; }
    var parts := Split(route);
    var i := |parts| - 1;
    while i >= 2
      invariant 0 <= i < |parts| && AuditPrefixes(table, route, i) == AuditPrefixes(table, route, |parts| - 1)
    {
      var prefix := Join(parts[..i]);
      if prefix in table { return Some(table[prefix]); }
      i := i - 1;
    }
    r := None;
  }

  function MapEntry(e: Option<Entry>): Option<AuditEntry> {
    if e.None? then None else Some(Translate(e.value))
  }

  lemma {:induction false} LoopsAgree(table: Table, route: string, i: nat)
    requires i <= |Split(route)|
    ensures AuditPrefixes(Copy(table), route, i) == MapEntry(FromPrefixes(table, route, i))
  {
    if i >= 2 {
      LoopsAgree(table, route, i - 1);
    }
  }

  /** On equal tables the two copies disagree exactly on paths that are both bypassed and exact keys. */
  lemma CopiesDifferIff(table: Table, bypass: set<string>, route: string)
    ensures AuditMatch(Copy(table), bypass, route) != MapEntry(Resolve(table, bypass, route)) <==>
            route in bypass && route in table
  {
    LoopsAgree(table, route, |Split(route)| - 1);
  }

  /** Field by field the script's table is the middleware's. */
  lemma CopyIs(table: Table, k: string)
    ensures Copy(table).Keys == table.Keys
    ensures k in table ==> && Copy(table)[k].workspace == table[k].p
                           && Copy(table)[k].tab == table[k].t
                           && Copy(table)[k].drawer == table[k].d
  {
  }

  /** Any table of the script is the copy of one. */
  function Original(table: AuditTable): Table {
    map k | k in table :: Entry(table[k].workspace, table[k].tab, table[k].drawer)
  }

  /**
   For every table of the script: the entry of the route itself first, bypassed or not; else nothing for a bypassed
   route or one that no key fits, and the entry of the longest key that does.
   */
  lemma AuditMatchIs(table: AuditTable, bypass: set<string>, route: string)
    ensures route in table ==> AuditMatch(table, bypass, route) == Some(table[route])
    ensures route !in table ==>
              (AuditMatch(table, bypass, route).None? <==>
               route in bypass || forall k :: k in table ==> !('/' in k && k + "/" <= route))
    ensures forall k :: route !in table && route !in bypass && k in table && '/' in k && k + "/" <= route &&
                        (forall k' :: k' in table && Fits(k', route) ==> |k'| <= |k|) ==>
              AuditMatch(table, bypass, route) == Some(table[k])
  {
    var original := Original(table);
    assert Copy(original) == table;
    CopiesDifferIff(original, bypass, route);
    ResolveIsLongest(original, bypass, route);
    forall k ensures Applies(original, k, route) <==> k in table && (k == route || ('/' in k && k + "/" <= route)) {
      FitsMeansApplies(original, k, route);
    }
    forall k | route !in table && route !in bypass && k in table && '/' in k && k + "/" <= route &&
               (forall k' :: k' in table && Fits(k', route) ==> |k'| <= |k|)
      ensures AuditMatch(table, bypass, route) == Some(table[k])
    {
      LongestFits(original, route, k);
    }
  }

  // ----- classification -----

  /** What the file system holds for a target: its page, whether that page only redirects, and an [id] page. */
  datatype Files = Files(page: bool, stub: bool, idPage: bool, idStub: bool)

  datatype Reason = BypassPage | DynamicIdPage | NoRouteFile | MiddlewareRedirect | RedirectStub | RealPage

  predicate IsTemplate(target: string) {
    exists i :: 0 <= i < |target| - 1 && target[i] == '$' && target[i+1] == '{'
  }

  function Classify(table: AuditTable, bypass: set<string>, files: Files, target: string): Reason {
    if target in bypass then BypassPage
    else if IsTemplate(target) then if files.idPage && !files.idStub then DynamicIdPage else NoRouteFile
    else if AuditMatch(table, bypass, target).Some? then MiddlewareRedirect
    else if !files.page then NoRouteFile
    else if files.stub then RedirectStub
    else RealPage
  }

  predicate Working(r: Reason) {
    r in {BypassPage, DynamicIdPage, RealPage}
  }

  /** A template has "${" somewhere. */
  lemma IsTemplateIff(target: string)
    ensures IsTemplate(target) <==> exists a, b :: target == a + "${" + b
  {
    if i :| 0 <= i < |target| - 1 && target[i] == '$' && target[i+1] == '{' {
      assert target == target[..i] + "${" + target[i+2..];
    }
    if a, b :| target == a + "${" + b {
      assert target[|a|] == "${"[0] && target[|a|+1] == "${"[1];
    }
  }

  /** The reason given for every target. */
  lemma ReasonIs(table: Table, bypass: set<string>, files: Files, target: string)
    ensures var r := Classify(Copy(table), bypass, files, target);
            var goesOn := target !in bypass && !IsTemplate(target) && Resolve(table, bypass, target).None?;
            && (r == BypassPage <==> target in bypass)
            && (r == DynamicIdPage <==>
                  target !in bypass && IsTemplate(target) && files.idPage && !files.idStub)
            && (r == NoRouteFile <==>
                  || (target !in bypass && IsTemplate(target) && !(files.idPage && !files.idStub))
                  || (goesOn && !files.page))
            && (r == RedirectStub <==> goesOn && files.page && files.stub)
            && (r == RealPage <==> goesOn && files.page && !files.stub)
  {
    CopiesDifferIff(table, bypass, target);
  }

  /**
   Despite the different order of tests, a target is reported as redirected exactly when the middleware redirects it,
   and as working exactly when the middleware passes it and it is bypassed, page or not, or has a page of its own.
   */
  lemma ReportedIffRedirected(table: Table, bypass: set<string>, files: Files, target: string)
    requires !IsTemplate(target)
    ensures Classify(Copy(table), bypass, files, target) == MiddlewareRedirect <==> Resolve(table, bypass, target).Some?
    ensures Working(Classify(Copy(table), bypass, files, target)) <==>
            (forall query :: Respond(table, bypass, true, target, query) == Pass) &&
            (target in bypass || (files.page && !files.stub))
  {
    CopiesDifferIff(table, bypass, target);
    assert Respond(table, bypass, true, target, []) == Pass <==> Resolve(table, bypass, target).None?;
  }

  /** A template target is never reported as redirected, even where the middleware redirects everything below a key. */
  lemma TemplatesAreNotReported(table: Table, bypass: set<string>, files: Files, target: string)
    requires IsTemplate(target)
    ensures Working(Classify(Copy(table), bypass, files, target)) <==>
            target in bypass || (files.idPage && !files.idStub)
    ensures target !in bypass && (exists k :: Applies(table, k, target)) ==>
              Resolve(table, bypass, target).Some? && Classify(Copy(table), bypass, files, target) != MiddlewareRedirect
  {
    ResolveIsLongest(table, bypass, target);
  }
}
