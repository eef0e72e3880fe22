/**
 * Per-directory configuration of the Closure JS language extension:
 * the grep-extern matching rule, the configuration record, and the
 * directive processor (`Configure`) that clones the parent configuration
 * and folds the directory's directives over it.
 */
module ClosureJs {
  import opened Wrappers
  import opened GoText

  // ---------------------------------------------------------------------------
  // Matching rules

  /** Membership in the regular-expression class `[a-zA-Z0-9]`. */
  predicate IsAsciiAlnum(c: char) {
    ('a' <= c <= 'z') || ('A' <= c <= 'Z') || ('0' <= c <= '9')
  }

  /**
   * `token` occurs in `file` at index `i`, with a character outside
   * `[a-zA-Z0-9]` right before it and another right after it. Both
   * neighbours must exist: an occurrence at the very start or the very end
   * of the file is not delimited.
   */
  predicate DelimitedAt(token: string, file: string, i: int) {
    0 < i && i + |token| < |file|
    && file[i..i + |token|] == token
    && !IsAsciiAlnum(file[i - 1]) && !IsAsciiAlnum(file[i + |token|])
  }

  /** Leftmost-first search for a delimited occurrence of `token` at index `i` or later. */
  function SearchFrom(token: string, file: string, i: nat): (r: bool)
    ensures r <==> exists j :: i <= j && DelimitedAt(token, file, j)
    decreases |file| - i
  {
    if i + |token| >= |file| then false
    else DelimitedAt(token, file, i) || SearchFrom(token, file, i + 1)
  }

  /**
   * A grep-extern rule: when `token` is found in a source file, `depLabel` is
   * added to the rule's deps. The compiled pattern of the source is
   * `[^a-zA-Z0-9]` + the quoted token + `[^a-zA-Z0-9]`; it is represented
   * here by the literal token and the search below.
   */
  datatype GrepExtern = GrepExtern(token: string, depLabel: string) {

    /** `matches`: the pattern is found somewhere in `file`. */
    predicate Matches(file: string)
      ensures Matches(file) <==> exists i :: DelimitedAt(token, file, i)
    {
      SearchFrom(token, file, 0)
    }
  }

  // ---------------------------------------------------------------------------
  // Configuration values and directives

  /** The value held by a configuration object: the grep-extern rules in order, and the per-file flag. */
  datatype Settings = Settings(grepExterns: seq<GrepExtern>, rulePerFile: bool)

  /** What `newJsConfig` produces: no rules, one rule per directory. */
  const EmptySettings := Settings([], false)

  /** A directive from a build file: `# gazelle:key value`. */
  datatype Directive = Directive(key: string, value: string)

  /** The diagnostics the directive loop logs when it skips a directive. */
  datatype Diagnostic =
    | GrepExternFieldCount(value: string)   // `js_grep_extern` without exactly two fields
    | RulePerFileInvalid(arg: string)       // `js_rule_per_file` argument that ParseBool rejects
    | RulePerFileFieldCount(value: string)  // `js_rule_per_file` with two or more fields

  const GrepExternKey := "js_grep_extern"
  const RulePerFileKey := "js_rule_per_file"

  /** `KnownDirectives`. */
  function KnownDirectives(): (r: seq<string>)
    ensures forall d: Directive :: d.key !in r ==> Check(d).None?
    ensures forall s: Settings, d: Directive :: d.key !in r ==> ApplyDirective(s, d) == s
  {
    [GrepExternKey, RulePerFileKey]
  }

  /** Every rule's token and label are fields: non-empty, no white space. */
  predicate RulesWellFormed(rules: seq<GrepExtern>) {
    forall k :: 0 <= k < |rules| ==> IsField(rules[k].token) && IsField(rules[k].depLabel)
  }

  /** One step of the directive loop: the effect of directive `d` on the settings `s`. */
  function ApplyDirective(s: Settings, d: Directive): (r: Settings)
    ensures d.key != GrepExternKey ==> r.grepExterns == s.grepExterns
    ensures d.key != RulePerFileKey ==> r.rulePerFile == s.rulePerFile
    ensures s.grepExterns <= r.grepExterns && |r.grepExterns| <= |s.grepExterns| + 1
    ensures RulesWellFormed(s.grepExterns) ==> RulesWellFormed(r.grepExterns)
  {
    if d.key == GrepExternKey then
      var fields := Fields(d.value);
      if |fields| != 2 then s
      else s.(grepExterns := s.grepExterns + [GrepExtern(fields[0], fields[1])])
    else if d.key == RulePerFileKey then
      var fields := Fields(d.value);
      if |fields| == 0 then s.(rulePerFile := true)
      else if |fields| == 1 then
        match ParseBool(fields[0])
        case Some(b) => s.(rulePerFile := b)
        case None => s
      else s
    else s
  }

  /** The diagnostic the directive loop logs for `d`, if any. */
  function Check(d: Directive): (r: Option<Diagnostic>)
    ensures r.Some? ==> d.key == GrepExternKey || d.key == RulePerFileKey
    ensures r.Some? ==> (r.value.GrepExternFieldCount? <==> d.key == GrepExternKey)
  {
    if d.key == GrepExternKey then
      if |Fields(d.value)| != 2 then Some(GrepExternFieldCount(d.value)) else None
    else if d.key == RulePerFileKey then
      var fields := Fields(d.value);
      if |fields| == 1 && ParseBool(fields[0]).None? then Some(RulePerFileInvalid(fields[0]))
      else if |fields| >= 2 then Some(RulePerFileFieldCount(d.value))
      else None
    else None
  }

  /** The directive loop as a left fold over the directives, in file order. */
  function ApplyAll(s: Settings, ds: seq<Directive>): (r: Settings)
    ensures s.grepExterns <= r.grepExterns
    ensures RulesWellFormed(s.grepExterns) ==> RulesWellFormed(r.grepExterns)
    decreases |ds|
  {
    if ds == [] then s else ApplyAll(ApplyDirective(s, ds[0]), ds[1..])
  }

  /** The diagnostics logged for `ds`, in order. */
  function Diagnostics(ds: seq<Directive>): (r: seq<Diagnostic>)
    ensures |r| <= |ds|
  {
    if ds == [] then []
    else (match Check(ds[0]) case Some(m) => [m] case None => []) + Diagnostics(ds[1..])
  }

  /** The settings `Configure` starts from: a fresh configuration at the root, else a copy of the parent's. */
  function Start(parent: Option<Settings>): Settings {
    parent.GetOr(EmptySettings)
  }

  /** The directives of the build file, none when the directory has no build file. */
  function DirectivesOf(file: Option<seq<Directive>>): seq<Directive> {
    file.GetOr([])
  }

  /** The configuration `Configure` leaves for a directory. */
  function Resolve(parent: Option<Settings>, file: Option<seq<Directive>>): Settings {
    ApplyAll(Start(parent), DirectivesOf(file))
  }

  /** Applying directives one after the other is applying their concatenation. */
  lemma {:induction false} ApplyAllAppend(s: Settings, a: seq<Directive>, b: seq<Directive>)
    ensures ApplyAll(s, a + b) == ApplyAll(ApplyAll(s, a), b)
    decreases |a|
  {
    if a == [] {
      assert a + b == b;
    } else {
      assert (a + b)[0] == a[0];
      assert (a + b)[1..] == a[1..] + b;
      ApplyAllAppend(ApplyDirective(s, a[0]), a[1..], b);
    }
  }

  lemma {:induction false} DiagnosticsAppend(a: seq<Directive>, b: seq<Directive>)
    ensures Diagnostics(a + b) == Diagnostics(a) + Diagnostics(b)
    decreases |a|
  {
    if a == [] {
      assert a + b == b;
    } else {
      assert (a + b)[0] == a[0];
      assert (a + b)[1..] == a[1..] + b;
      DiagnosticsAppend(a[1..], b);
    }
  }

  /** One more pass of the loop: the fold over the first i + 1 directives, and what it logs. */
  lemma FoldStep(s: Settings, ds: seq<Directive>, i: nat)
    requires i < |ds|
    ensures ApplyAll(s, ds[..i + 1]) == ApplyDirective(ApplyAll(s, ds[..i]), ds[i])
    ensures Diagnostics(ds[..i + 1])
         == Diagnostics(ds[..i]) + (match Check(ds[i]) case Some(m) => [m] case None => [])
  {
    assert ds[..i + 1] == ds[..i] + [ds[i]];
    ApplyAllAppend(s, ds[..i], [ds[i]]);
    DiagnosticsAppend(ds[..i], [ds[i]]);
  }

  // ---------------------------------------------------------------------------
  // The configuration object and the directive processor

  /** `jsConfig`: the configuration object the directive loop updates in place. */
  class JsConfig {
    var grepExterns: seq<GrepExtern>
    var rulePerFile: bool

    /** `newJsConfig`. */
    constructor ()
      ensures grepExterns == [] && !rulePerFile
    {
      grepExterns := [];
      rulePerFile := false;
    }

    function Value(): Settings
      reads this
    {
      Settings(grepExterns, rulePerFile)
    }

    /** `clone`: a new object with the same rules and flag; this one is left alone. */
    method Clone() returns (c: JsConfig)
      ensures fresh(c)
      ensures c.Value() == Value()
    {
      c := new JsConfig();
      c.grepExterns := grepExterns;
      c.rulePerFile := rulePerFile;
    }

    /** One pass of the directive loop's body: updates this object for `d` and returns what it logs. */
    method Apply(d: Directive) returns (logged: Option<Diagnostic>)
      modifies this
      ensures Value() == ApplyDirective(old(Value()), d)
      ensures logged == Check(d)
    {
      logged := None;
      if d.key == GrepExternKey {
        var fields := Fields(d.value);
        if |fields| != 2 {
          logged := Some(GrepExternFieldCount(d.value));
        } else {
          grepExterns := grepExterns + [GrepExtern(fields[0], fields[1])];
        }
      } else if d.key == RulePerFileKey {
        var fields := Fields(d.value);
        if |fields| == 0 {
          rulePerFile := true;
        } else if |fields| == 1 {
          var b := ParseBool(fields[0]);
          if b.None? {
            logged := Some(RulePerFileInvalid(fields[0]));
          } else {
            rulePerFile := b.value;
          }
        } else {
          logged := Some(RulePerFileFieldCount(d.value));
        }
      }
    }
  }

  /**
   * `Configure`: starts from a new configuration when there is no parent,
   * else from a clone of the parent, then applies the build file's
   * directives in order. Returns the directory's configuration and the
   * diagnostics it logged. The parent object is never modified.
   */
  method Configure(parent: JsConfig?, file: Option<seq<Directive>>) returns (gc: JsConfig, logged: seq<Diagnostic>)
    ensures fresh(gc)
    ensures gc.Value() == Resolve(if parent == null then None else Some(parent.Value()), file)
    ensures logged == Diagnostics(DirectivesOf(file))
  {
    if parent == null {
      gc := new JsConfig();
    } else {
      gc := parent.Clone();
    }
    ghost var start := gc.Value();
    logged := [];
    if file.Some? {
      var ds := file.value;
      var i := 0;
      while i < |ds|
        invariant 0 <= i <= |ds|
        invariant gc.Value() == ApplyAll(start, ds[..i])
        invariant logged == Diagnostics(ds[..i])
      {
        var d := ds[i];
        var m := gc.Apply(d);
        if m.Some? {
          logged := logged + [m.value];
        }
        FoldStep(start, ds, i);
        i := i + 1;
      }
      assert ds[..i] == ds;
    }
  }
}
