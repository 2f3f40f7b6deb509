/** Where a configuration value comes from: a bit mask over a 64-bit Go
    `int` whose lowest bit marks a value that arrived through an `include`
    directive and whose next three bits name the source file (system,
    global, the repository itself). */
module Scopes {
  import opened Text

  type Scope = bv64

  const ScopeInclude: Scope := 1
  const ScopeSystem: Scope := 2
  const ScopeGlobal: Scope := 4
  const ScopeSelf: Scope := 8
  const ScopeAll: Scope := 0xFFFF
  /** Every bit but the include bit (Go's `^ScopeInclude`). */
  const ScopeMask: Scope := !ScopeInclude

  /** "-inc" when the include bit is set, else nothing. */
  function IncludeSuffix(v: Scope): string
  {
    if v & ScopeInclude == ScopeInclude then "-inc" else ""
  }

  /** `Scope.String`: the first of system, global and self whose bit is set,
      else "unknown", followed by "-inc" exactly when the include bit is set. */
  function ScopeString(v: Scope): (r: string)
    ensures HasSuffix(r, "-inc") <==> v & ScopeInclude != 0
    ensures v & ScopeSystem != 0 ==> r == "system" + IncludeSuffix(v)
    ensures v & ScopeSystem == 0 && v & ScopeGlobal != 0 ==> r == "global" + IncludeSuffix(v)
    ensures v & (ScopeSystem | ScopeGlobal) == 0 && v & ScopeSelf != 0 ==> r == "self" + IncludeSuffix(v)
    ensures v & (ScopeSystem | ScopeGlobal | ScopeSelf) == 0 ==> r == "unknown" + IncludeSuffix(v)
  {
    var inc := IncludeSuffix(v);
    if v & ScopeSystem == ScopeSystem then SuffixRule("system", v); "system" + inc
    else if v & ScopeGlobal == ScopeGlobal then SuffixRule("global", v); "global" + inc
    else if v & ScopeSelf == ScopeSelf then SuffixRule("self", v); "self" + inc
    else SuffixRule("unknown", v); "unknown" + inc
  }

  lemma SuffixRule(name: string, v: Scope)
    requires |name| >= 4 && name[|name| - 4] != '-'
    ensures HasSuffix(name + IncludeSuffix(v), "-inc") <==> v & ScopeInclude != 0
  {
    var s := name + IncludeSuffix(v);
    if IncludeSuffix(v) == "" {
      assert s[|s| - 4] != "-inc"[0];
    } else {
      assert s[|s| - 4..] == "-inc";
    }
  }

  /** The scope a merge gives to a value that had scope `prior`: the include
      bit of `prior`, together with the merge's own `scope`. */
  function Retagged(prior: Scope, scope: Scope): (r: Scope)
    ensures r & ScopeMask == scope & ScopeMask
    ensures r & ScopeInclude == (prior | scope) & ScopeInclude
  {
    (prior & !ScopeMask) | scope
  }

  /** A value merged in under one of the three base scopes renders as that
      scope's name, with "-inc" exactly when it was included before or the
      merge scope itself carries the include bit. */
  lemma RetaggedRendering(prior: Scope, scope: Scope)
    requires scope & !ScopeInclude in {ScopeSystem, ScopeGlobal, ScopeSelf}
    ensures var inc := if (prior | scope) & ScopeInclude != 0 then "-inc" else "";
      && (scope & ScopeSystem != 0 ==> ScopeString(Retagged(prior, scope)) == "system" + inc)
      && (scope & ScopeGlobal != 0 ==> ScopeString(Retagged(prior, scope)) == "global" + inc)
      && (scope & ScopeSelf != 0 ==> ScopeString(Retagged(prior, scope)) == "self" + inc)
  {
    var r := Retagged(prior, scope);
    assert r & !ScopeInclude == scope & !ScopeInclude;
    assert r & ScopeSystem == scope & ScopeSystem;
    assert r & ScopeGlobal == scope & ScopeGlobal;
    assert r & ScopeSelf == scope & ScopeSelf;
  }
}
