/** Locating the daemon binary (`_find_ndnd`): an explicit path if one is
    given, else the executable search path, else the conventional build
    location under the repository root. */
module Resolve {
  import opened Wrappers

  /** What the resolver observes of the machine: the working directory,
      the paths that exist, and what the executable search returns. */
  datatype Env = Env(cwd: string, existing: set<string>, which: Option<string>)

  datatype ResolveError =
    | ExplicitMissing(path: string)  // the explicit path does not exist; no fallback
    | NotFound                       // neither the search path nor the build location has it

  predicate IsAbs(p: string) {
    |p| > 0 && p[0] == '/'
  }

  /** POSIX path joining of two components. */
  function Join(a: string, b: string): (r: string)
    ensures IsAbs(a) || IsAbs(b) ==> IsAbs(r)
  {
    if IsAbs(b) then b
    else if a == "" || a[|a| - 1] == '/' then a + b
    else a + "/" + b
  }

  /** Absolute form of `p` relative to `cwd` (without normalisation). */
  function AbsPath(cwd: string, p: string): (r: string)
    ensures IsAbs(p) ==> r == p
    ensures IsAbs(cwd) ==> IsAbs(r)
  {
    if IsAbs(p) then p else Join(cwd, p)
  }

  /** `<repoRoot>/ndnd/ndnd`. */
  function BuildLocation(repoRoot: string): string {
    Join(Join(repoRoot, "ndnd"), "ndnd")
  }

  function FindNdnd(explicit: Option<string>, repoRoot: string, env: Env): (r: Result<string, ResolveError>)
    // A non-empty explicit path is the only candidate: it is used exactly when it exists.
    ensures Truthy(explicit) ==>
      var p := AbsPath(env.cwd, explicit.value);
      && (r.Success? <==> p in env.existing)
      && (r.Success? ==> r.value == p)
      && (r.Failure? ==> r.error == ExplicitMissing(p))
    // Otherwise the search path wins over the build location.
    ensures !Truthy(explicit) && Truthy(env.which) ==> r == Success(env.which.value)
    ensures !Truthy(explicit) && !Truthy(env.which) ==>
      r == (if BuildLocation(repoRoot) in env.existing then Success(BuildLocation(repoRoot)) else Failure(NotFound))
    // "Not found" only when all three sources fail.
    ensures r == Failure(NotFound) <==>
      !Truthy(explicit) && !Truthy(env.which) && BuildLocation(repoRoot) !in env.existing
    // Every answer is an existing path or the search result.
    ensures r.Success? ==> r.value in env.existing || (!Truthy(explicit) && Some(r.value) == env.which)
  {
    if Truthy(explicit) then
      var p := AbsPath(env.cwd, explicit.value);
      if p in env.existing then Success(p) else Failure(ExplicitMissing(p))
    else if Truthy(env.which) then
      Success(env.which.value)
    else
      var p := BuildLocation(repoRoot);
      if p in env.existing then Success(p) else Failure(NotFound)
  }

  /** An explicit path admits no fallback: the search result and whether
      any other path exists make no difference to the outcome. */
  lemma ExplicitHasNoFallback(explicit: Option<string>, repoRoot: string, repoRoot': string, env: Env, env': Env)
    requires Truthy(explicit) && env.cwd == env'.cwd
    requires AbsPath(env.cwd, explicit.value) in env.existing <==> AbsPath(env.cwd, explicit.value) in env'.existing
    ensures FindNdnd(explicit, repoRoot, env) == FindNdnd(explicit, repoRoot', env')
  {
  }

  /** With no explicit path, a search hit makes the build location
      irrelevant. */
  lemma SearchPathWins(explicit: Option<string>, repoRoot: string, repoRoot': string, env: Env, existing': set<string>)
    requires !Truthy(explicit) && Truthy(env.which)
    ensures FindNdnd(explicit, repoRoot, env) == FindNdnd(explicit, repoRoot', env.(existing := existing'))
  {
  }
}
