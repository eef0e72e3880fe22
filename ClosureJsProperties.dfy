/**
 * What the directive processor and the matching rule promise, stated
 * against reference definitions that are independent of the loop's shape.
 */
module ClosureJsProperties {
  import opened Wrappers
  import opened GoText
  import opened ClosureJs

  // ---------------------------------------------------------------------------
  // Reference definitions

  /** A `js_grep_extern` directive whose value splits into exactly a token and a label. */
  predicate IsWellFormedGrep(d: Directive) {
    d.key == GrepExternKey && |Fields(d.value)| == 2
  }

  /** The rules the well-formed `js_grep_extern` directives of `ds` describe, in directive order. */
  function GrepRules(ds: seq<Directive>): (r: seq<GrepExtern>)
    ensures RulesWellFormed(r)
    ensures |r| <= |ds|
  {
    if ds == [] then []
    else
      var fields := Fields(ds[0].value);
      (if IsWellFormedGrep(ds[0]) then [GrepExtern(fields[0], fields[1])] else [])
      + GrepRules(ds[1..])
  }

  /** The value a `js_rule_per_file` directive gives the flag, or `None` when it leaves the flag alone. */
  function FlagSetting(d: Directive): Option<bool> {
    if d.key != RulePerFileKey then None
    else
      var fields := Fields(d.value);
      if |fields| == 0 then Some(true)
      else if |fields| == 1 then ParseBool(fields[0])
      else None
  }

  /** The value set by the last directive of `ds` that sets the flag, if there is one. */
  function LastFlag(ds: seq<Directive>): Option<bool> {
    if ds == [] then None
    else
      match LastFlag(ds[1..])
      case Some(b) => Some(b)
      case None => FlagSetting(ds[0])
  }

  // ---------------------------------------------------------------------------
  // Starting point

  /** Without directives, `Configure` yields a fresh configuration at the root and an equal copy of the parent's elsewhere. */
  lemma ConfigureWithoutDirectives(parent: Option<Settings>, file: Option<seq<Directive>>)
    requires DirectivesOf(file) == []
    ensures parent.None? ==> Resolve(parent, file) == Settings([], false)
    ensures parent.Some? ==> Resolve(parent, file) == parent.value
  {
  }

  // ---------------------------------------------------------------------------
  // One directive

  /** `js_grep_extern tok label`, written with any two fields, appends exactly the rule (tok, label). */
  lemma GrepExternWritten(s: Settings, tok: string, lbl: string)
    requires IsField(tok) && IsField(lbl)
    ensures ApplyDirective(s, Directive(GrepExternKey, tok + " " + lbl))
         == Settings(s.grepExterns + [GrepExtern(tok, lbl)], s.rulePerFile)
    ensures Check(Directive(GrepExternKey, tok + " " + lbl)).None?
  {
    FieldsOfJoin([tok, lbl]);
    assert JoinSpace([tok, lbl]) == tok + " " + lbl;
  }

  /** `js_rule_per_file` with a value that is all white space (or empty) turns per-file rules on. */
  lemma RulePerFileBlank(s: Settings, v: string)
    requires forall k :: 0 <= k < |v| ==> IsSpace(v[k])
    ensures ApplyDirective(s, Directive(RulePerFileKey, v)) == Settings(s.grepExterns, true)
    ensures Check(Directive(RulePerFileKey, v)).None?
  {
    FieldsEmptyIffAllSpace(v);
  }

  /** `js_rule_per_file true` and `js_rule_per_file false` set the flag to that value. */
  lemma RulePerFileWritten(s: Settings, b: bool)
    ensures ApplyDirective(s, Directive(RulePerFileKey, FormatBool(b))) == Settings(s.grepExterns, b)
    ensures Check(Directive(RulePerFileKey, FormatBool(b))).None?
  {
    ParseFormatBool(b);
    FieldsOfJoin([FormatBool(b)]);
  }

  /** A directive whose key is not one of `KnownDirectives` changes nothing and logs nothing. */
  lemma UnknownKeyIgnored(s: Settings, d: Directive)
    requires d.key !in KnownDirectives()
    ensures ApplyDirective(s, d) == s
    ensures Check(d).None?
  {
  }

  /** A logged directive is skipped, and a known directive that is not logged takes effect. */
  lemma LoggedIffSkipped(s: Settings, d: Directive)
    ensures Check(d).Some? ==> ApplyDirective(s, d) == s
    ensures d.key == GrepExternKey ==>
      (Check(d).None? <==> |ApplyDirective(s, d).grepExterns| == |s.grepExterns| + 1)
    ensures d.key == RulePerFileKey ==> (Check(d).None? <==> FlagSetting(d).Some?)
  {
  }

  /** Build files holding only other extensions' directives log nothing. */
  lemma {:induction false} OnlyUnknownKeysLogNothing(ds: seq<Directive>)
    requires forall k :: 0 <= k < |ds| ==> ds[k].key !in KnownDirectives()
    ensures Diagnostics(ds) == []
    decreases |ds|
  {
    if ds != [] {
      assert Check(ds[0]).None?;
      OnlyUnknownKeysLogNothing(ds[1..]);
    }
  }

  // ---------------------------------------------------------------------------
  // The whole directive loop

  /** The final rules are the starting rules followed by the well-formed `js_grep_extern` directives, in order. */
  lemma {:induction false} FoldRules(s: Settings, ds: seq<Directive>)
    ensures ApplyAll(s, ds).grepExterns == s.grepExterns + GrepRules(ds)
    decreases |ds|
  {
    if ds != [] {
      var s' := ApplyDirective(s, ds[0]);
      FoldRules(s', ds[1..]);
      if IsWellFormedGrep(ds[0]) {
        var fields := Fields(ds[0].value);
        assert s'.grepExterns == s.grepExterns + [GrepExtern(fields[0], fields[1])];
      } else {
        assert s'.grepExterns == s.grepExterns;
      }
    }
  }

  /** The final flag is the one set by the last directive that sets it, or the starting flag when none does. */
  lemma {:induction false} FoldFlag(s: Settings, ds: seq<Directive>)
    ensures ApplyAll(s, ds).rulePerFile == LastFlag(ds).GetOr(s.rulePerFile)
    decreases |ds|
  {
    if ds != [] {
      var s' := ApplyDirective(s, ds[0]);
      FoldFlag(s', ds[1..]);
      assert s'.rulePerFile == FlagSetting(ds[0]).GetOr(s.rulePerFile);
    }
  }

  /**
   * One directive on its own: it appends the rule it describes when it is a
   * well-formed `js_grep_extern`, and sets the flag when it is a
   * flag-setting `js_rule_per_file`; nothing else changes.
   */
  lemma SingleDirective(s: Settings, d: Directive)
    ensures ApplyDirective(s, d) == Settings(s.grepExterns + GrepRules([d]), LastFlag([d]).GetOr(s.rulePerFile))
  {
    FoldRules(s, [d]);
    FoldFlag(s, [d]);
    assert [d][1..] == [];
  }

  /** Every rule `Configure` records has a token and a label that are non-empty and free of white space. */
  lemma ConfigureRulesWellFormed(parent: Option<Settings>, file: Option<seq<Directive>>)
    ensures var r := Resolve(parent, file).grepExterns;
      |Start(parent).grepExterns| <= |r| && RulesWellFormed(r[|Start(parent).grepExterns|..])
    ensures parent.None? ==> RulesWellFormed(Resolve(parent, file).grepExterns)
  {
    var s := Start(parent);
    FoldRules(s, DirectivesOf(file));
    assert Resolve(parent, file).grepExterns[|s.grepExterns|..] == GrepRules(DirectivesOf(file));
  }

  /** A directory inherits its parent's rules unchanged and in order, with its own appended after them. */
  lemma InheritsParentRules(p: Settings, file: Option<seq<Directive>>)
    ensures Resolve(Some(p), file).grepExterns == p.grepExterns + GrepRules(DirectivesOf(file))
  {
    FoldRules(p, DirectivesOf(file));
  }

  /** Configuring a subdirectory from its parent's result is configuring with both build files' directives, parent's first. */
  lemma NestedDirectories(parent: Option<Settings>, f1: seq<Directive>, f2: seq<Directive>)
    ensures Resolve(Some(Resolve(parent, Some(f1))), Some(f2)) == Resolve(parent, Some(f1 + f2))
  {
    ApplyAllAppend(Start(parent), f1, f2);
  }

  /** `js_rule_per_file x` with a single argument ParseBool rejects is logged and changes nothing. */
  lemma RulePerFileInvalidArgument(s: Settings, bad: string)
    requires IsField(bad) && ParseBool(bad).None?
    ensures ApplyDirective(s, Directive(RulePerFileKey, bad)) == s
    ensures Check(Directive(RulePerFileKey, bad)) == Some(RulePerFileInvalid(bad))
  {
    FieldsOfField(bad);
  }

  /** Two directives in a row: two steps of the fold, and the two directives' log lines in order. */
  lemma TwoDirectives(s: Settings, d1: Directive, d2: Directive)
    ensures ApplyAll(s, [d1, d2]) == ApplyDirective(ApplyDirective(s, d1), d2)
    ensures Diagnostics([d1, d2]) == Diagnostics([d1]) + Diagnostics([d2])
  {
    assert [d1, d2] == [d1] + [d2];
    ApplyAllAppend(s, [d1], [d2]);
    DiagnosticsAppend([d1], [d2]);
  }

  /**
   * `js_rule_per_file false` (or `true`) followed by `js_rule_per_file bogus`: the
   * unparsable second directive is logged and the flag keeps the first one's value.
   */
  lemma InvalidBoolKeepsEarlierSetting(parent: Option<Settings>, b: bool, bad: string)
    requires IsField(bad) && ParseBool(bad).None?
    ensures var ds := [Directive(RulePerFileKey, FormatBool(b)), Directive(RulePerFileKey, bad)];
      Resolve(parent, Some(ds)).rulePerFile == b && Diagnostics(ds) == [RulePerFileInvalid(bad)]
  {
    var s0 := Start(parent);
    var d1, d2 := Directive(RulePerFileKey, FormatBool(b)), Directive(RulePerFileKey, bad);
    RulePerFileWritten(s0, b);
    RulePerFileInvalidArgument(ApplyDirective(s0, d1), bad);
    TwoDirectives(s0, d1, d2);
  }

  // ---------------------------------------------------------------------------
  // Matching

  /** A match needs a character before and a character after the token. */
  lemma MatchNeedsNeighbours(g: GrepExtern, file: string)
    requires g.Matches(file)
    ensures |file| >= |g.token| + 2
  {
  }

  /** The token alone, or at the start or the end of the file, is never found. */
  lemma NeverAtEdges(g: GrepExtern, rest: string)
    ensures !g.Matches(g.token)
    ensures !DelimitedAt(g.token, g.token + rest, 0)
    ensures !DelimitedAt(g.token, rest + g.token, |rest|)
  {
  }

  /** The token between two characters is found exactly when neither of them is in `[a-zA-Z0-9]`. */
  lemma MatchesSurrounded(g: GrepExtern, a: char, b: char)
    ensures g.Matches([a] + g.token + [b]) <==> !IsAsciiAlnum(a) && !IsAsciiAlnum(b)
  {
    var f := [a] + g.token + [b];
    assert f[1..1 + |g.token|] == g.token;
    if g.Matches(f) {
      var i :| DelimitedAt(g.token, f, i);
      assert i == 1;
    } else {
      assert !DelimitedAt(g.token, f, 1);
    }
  }

  /** A delimited occurrence stays delimited, shifted by |pre|, when text is added around the file. */
  lemma DelimitedShift(token: string, pre: string, file: string, post: string, i: int)
    requires DelimitedAt(token, file, i)
    ensures DelimitedAt(token, pre + file + post, |pre| + i)
  {
    var f := pre + file + post;
    var j, n := |pre| + i, |token|;
    assert f[j - 1] == file[i - 1];
    assert f[j + n] == file[i + n];
    forall k | 0 <= k < n ensures f[j..j + n][k] == token[k] {
      assert f[j + k] == file[i + k];
      assert file[i..i + n][k] == file[i + k];
    }
  }

  /** A match survives any text added before or after the file. */
  lemma MatchesExtend(g: GrepExtern, pre: string, file: string, post: string)
    requires g.Matches(file)
    ensures g.Matches(pre + file + post)
  {
    var i :| DelimitedAt(g.token, file, i);
    DelimitedShift(g.token, pre, file, post, i);
  }

  /** "use foo now" contains the token `foo`; "xfoox" does not. */
  lemma MatchExamples(l: string)
    ensures GrepExtern("foo", l).Matches("use foo now")
    ensures !GrepExtern("foo", l).Matches("xfoox")
  {
  }
}
