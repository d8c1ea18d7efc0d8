/** When printing a parse result and parsing it again gives it back, and that both wire forms mean the same. */
module VocabNormalForm {
  import opened Wrappers
  import opened Vocab

  // ---- Tokens that are vocabulary names or ids ----

  lemma {:induction false} CleanName(s: string)
    requires forall i :: 0 <= i < |s| ==> IsUpper(s[i]) || s[i] == '-'
    ensures Clean(s) == s
  {
    if s != "" {
      CleanName(s[1..]);
      assert s == [s[0]] + s[1..];
    }
  }

  lemma {:induction false} CleanDigits(s: string)
    requires forall i :: 0 <= i < |s| ==> IsDigit(s[i])
    ensures Clean(s) == s
  {
    if s != "" {
      CleanDigits(s[1..]);
      assert s == [s[0]] + s[1..];
    }
  }

  /** A vocabulary name resolves to itself. */
  lemma NameResolves(v: Vocabulary, name: string)
    requires WellFormed(v) && name in v.byName
    ensures Resolve(v, name) == Resolved(Some(name), Some(v.byName[name]), false)
  {
    CleanName(name);
    assert !IsDigit(name[0]);
  }

  lemma ThreeDigits(s: string)
    requires IdChars(s)
    ensures AllDigits(s) && Clean(s) == s && Zfill3(s) == s && 1 <= IntOf(s) <= 999
  {
    CleanDigits(s);
    assert s == [s[0], s[1], s[2]];
    assert s[..2] == [s[0], s[1]] && s[..2][..1] == [s[0]] && s[..2][..1][..0] == "";
    assert IntOf(s[..2][..1]) == DigitValue(s[0]);
    assert IntOf(s[..2]) == 10 * IntOf(s[..2][..1]) + DigitValue(s[1]);
    assert IntOf(s) == 10 * IntOf(s[..2]) + DigitValue(s[2]);
  }

  /** Whatever resolves, resolves to an entry of the name table. */
  lemma ResolvedIsKnown(v: Vocabulary, token: string)
    requires WellFormed(v) && Resolve(v, token).entry.Some?
    ensures var r := Resolve(v, token);
            r.name.Some? && r.name.value in v.byName && r.entry.value == v.byName[r.name.value]
  {
    hide NameChars, IdChars;
  }

  // ---- The reserved words do not overlap ----

  lemma Keywords()
    ensures END_WORD != STATE_WORD && END_WORD != TARGET_WORD && END_WORD != CONFIDENCE_WORD
    ensures STATE_WORD != TARGET_WORD && STATE_WORD != CONFIDENCE_WORD && TARGET_WORD != CONFIDENCE_WORD
    ensures !IsTargetState(END_WORD) && !IsTargetState(STATE_WORD)
    ensures !IsTargetState(TARGET_WORD) && !IsTargetState(CONFIDENCE_WORD)
    ensures !IsPriority(END_WORD) && !IsPriority(STATE_WORD) && !IsPriority(TARGET_WORD) && !IsPriority(CONFIDENCE_WORD)
    ensures !IsStateWord(TARGET_WORD) && !IsStateWord(END_WORD)
    ensures !IsTruth(TARGET_WORD)
  {
  }

  lemma TargetStatesAreNotPriorities(t: string)
    requires IsTargetState(t)
    ensures !IsPriority(t)
  {
  }

  // ---- What every parse result satisfies ----

  /** Names that the parser files as objects, wherever they stand. */
  ghost predicate ObjectName(v: Vocabulary, o: string)
  {
    && o in v.byName && o != END_WORD && o != CONFIDENCE_WORD
    && !IsAction(v.byName[o]) && !IsPriority(o) && IsObject(v.byName[o])
  }

  /** Names that the parser files as states (or as a missing target). */
  ghost predicate StateName(v: Vocabulary, s: string)
  {
    && s in v.byName && s != END_WORD && s != TARGET_WORD && s != CONFIDENCE_WORD
    && !IsAction(v.byName[s]) && !IsPriority(s) && !IsObject(v.byName[s])
    && (IsState(v.byName[s]) || IsStateWord(s) || IsTargetState(s)
        || (IsMeta(v.byName[s]) && IsTruth(s)))
  }

  ghost predicate ActionName(v: Vocabulary, a: string)
  {
    a in v.byName && IsAction(v.byName[a]) && a != END_WORD && a != STATE_WORD && a != TARGET_WORD
  }

  ghost predicate PriorityName(v: Vocabulary, q: string)
  {
    q in v.byName && IsPriority(q) && !IsAction(v.byName[q])
  }

  /** The invariant of the token loop. */
  ghost predicate Reachable(v: Vocabulary, p: Parsed)
  {
    && (forall i :: 0 <= i < |p.actions| ==> ActionName(v, p.actions[i]))
    && (p.object_.Some? ==> p.object_.value in v.byName
                            && (p.object_.value == STATE_WORD || ObjectName(v, p.object_.value)))
    && (p.destination.Some? ==> p.object_.Some? && ObjectName(v, p.destination.value))
    && (p.target.Some? ==> p.target.value in v.byName)
    && (p.state.Some? ==> StateName(v, p.state.value)
                          && (IsTargetState(p.state.value) ==> p.target.Some?)
                          && (p.state.value == STATE_WORD ==> p.object_.Some?))
    && (p.priority.Some? ==> PriorityName(v, p.priority.value))
    && (p.confidence.Some? ==> 0.0 <= p.confidence.value <= 1.0 && CONFIDENCE_WORD in v.byName
                               && !IsAction(v.byName[CONFIDENCE_WORD]))
  }

  /** What the branch taken says about the name. */
  lemma BranchMeans(v: Vocabulary, name: string, objectSet: bool, more: bool)
    requires ReservedWords(v) && name in v.byName
    ensures var b := BranchOf(name, v.byName[name], objectSet, more);
            && (b == BObjectState ==> name == STATE_WORD)
            && (b == BAction ==> ActionName(v, name))
            && (b == BPriority ==> PriorityName(v, name))
            && (b == BConfidence ==> name == CONFIDENCE_WORD && !IsAction(v.byName[CONFIDENCE_WORD]))
            && (b == BObject ==> ObjectName(v, name))
            && (b == BState || b == BBool ==> StateName(v, name) && (name == STATE_WORD ==> objectSet))
            && (b == BBool && IsTargetState(name) ==> false)
  {
    hide IsAction, IsObject, IsState, IsMeta, IsTargetState, IsStateWord, IsPriority, IsTruth, END_WORD, STATE_WORD,
      TARGET_WORD, CONFIDENCE_WORD;
    Keywords();
  }

  lemma StepKeepsReachable(v: Vocabulary, f: Floats, tokens: seq<string>, p: Parsed)
    requires WellFormed(v) && ReservedWords(v) && tokens != [] && Reachable(v, p)
    ensures Reachable(v, Step(v, f, tokens, p).0)
  {
    hide Resolve, WellFormed, ReservedWords, NumberOf, Clamp, BranchOf, Reachable, IsTargetState;
    var resolved := Resolve(v, tokens[0]);
    if resolved.entry.Some? {
      ResolvedIsKnown(v, tokens[0]);
      var name := resolved.name.value;
      BranchMeans(v, name, p.object_.Some?, |tokens| > 1);
      if |tokens| > 1 && Resolve(v, tokens[1]).entry.Some? {
        ResolvedIsKnown(v, tokens[1]);
        KeepsTarget(v, p, Resolve(v, tokens[1]).name.value);
      }
      match BranchOf(name, resolved.entry.value, p.object_.Some?, |tokens| > 1)
      case BEnd => KeepsEnd(v, p);
      case BObjectState => KeepsObject(v, p, name);
      case BTarget =>
      case BAction => KeepsAction(v, p, name);
      case BPriority => KeepsPriority(v, p, name);
      case BConfidence =>
        KeepsNoConfidence(v, p);
        if |tokens| > 1 && NumberOf(f, tokens[1]).Some? {
          KeepsConfidence(v, p, Clamp(NumberOf(f, tokens[1]).value));
        }
      case BObject => KeepsObject(v, p, name); KeepsDestination(v, p, name);
      case BState => KeepsTarget(v, p, name); KeepsState(v, p, name);
      case BBool => KeepsState(v, p, name);
      case BNone => KeepsErrors(v, p, ParseError("UNMAPPED_NUMERIC", tokens[0]));
    } else {
      KeepsErrors(v, p, ParseError("UNKNOWN_OPCODE", tokens[0]));
    }
  }

  lemma KeepsErrors(v: Vocabulary, p: Parsed, e: ParseError)
    requires Reachable(v, p)
    ensures Reachable(v, p.(errors := p.errors + [e]))
  {
    hide ObjectName, StateName, ActionName, PriorityName, IsTargetState, STATE_WORD;
  }

  lemma KeepsEnd(v: Vocabulary, p: Parsed)
    requires Reachable(v, p)
    ensures Reachable(v, p.(end := true))
  {
    hide ObjectName, StateName, ActionName, PriorityName, IsTargetState, STATE_WORD;
  }

  lemma KeepsAction(v: Vocabulary, p: Parsed, name: string)
    requires Reachable(v, p) && ActionName(v, name)
    ensures Reachable(v, p.(actions := p.actions + [name]))
  {
    hide ObjectName, StateName, ActionName, PriorityName, IsTargetState, STATE_WORD;
  }

  lemma KeepsObject(v: Vocabulary, p: Parsed, name: string)
    requires Reachable(v, p) && name in v.byName && (name == STATE_WORD || ObjectName(v, name))
    ensures Reachable(v, p.(object_ := Some(name)))
  {
    hide ObjectName, StateName, ActionName, PriorityName, IsTargetState, STATE_WORD;
  }

  lemma KeepsDestination(v: Vocabulary, p: Parsed, name: string)
    requires Reachable(v, p) && ObjectName(v, name)
    ensures p.object_.Some? ==> Reachable(v, p.(destination := Some(name)))
  {
    hide ObjectName, StateName, ActionName, PriorityName, IsTargetState, STATE_WORD;
  }

  lemma KeepsTarget(v: Vocabulary, p: Parsed, name: string)
    requires Reachable(v, p) && name in v.byName
    ensures Reachable(v, p.(target := Some(name)))
  {
    hide ObjectName, StateName, ActionName, PriorityName, IsTargetState, STATE_WORD;
  }

  lemma KeepsState(v: Vocabulary, p: Parsed, name: string)
    requires Reachable(v, p) && StateName(v, name) && (name == STATE_WORD ==> p.object_.Some?)
    ensures IsTargetState(name) ==> p.target.Some? ==> Reachable(v, p.(state := Some(name)))
    ensures !IsTargetState(name) ==> Reachable(v, p.(state := Some(name)))
  {
    hide ObjectName, StateName, ActionName, PriorityName, IsTargetState, STATE_WORD;
  }

  lemma KeepsPriority(v: Vocabulary, p: Parsed, name: string)
    requires Reachable(v, p) && PriorityName(v, name)
    ensures Reachable(v, p.(priority := Some(name)))
  {
    hide ObjectName, StateName, ActionName, PriorityName, IsTargetState, STATE_WORD;
  }

  lemma KeepsNoConfidence(v: Vocabulary, p: Parsed)
    requires Reachable(v, p)
    ensures Reachable(v, p.(confidence := None))
  {
    hide ObjectName, StateName, ActionName, PriorityName, IsTargetState, STATE_WORD;
  }

  lemma KeepsConfidence(v: Vocabulary, p: Parsed, c: real)
    requires Reachable(v, p) && 0.0 <= c <= 1.0
    requires CONFIDENCE_WORD in v.byName && !IsAction(v.byName[CONFIDENCE_WORD])
    ensures Reachable(v, p.(confidence := Some(c)))
  {
    hide ObjectName, StateName, ActionName, PriorityName, IsTargetState, STATE_WORD;
  }

  lemma {:induction false} ParseIsReachable(v: Vocabulary, f: Floats, tokens: seq<string>, p: Parsed)
    requires WellFormed(v) && ReservedWords(v) && Reachable(v, p)
    ensures Reachable(v, ParseRest(v, f, tokens, p))
    decreases |tokens|
  {
    hide WellFormed, ReservedWords, Reachable, Step;
    if tokens != [] {
      StepKeepsReachable(v, f, tokens, p);
      var (next, used) := Step(v, f, tokens, p);
      ParseIsReachable(v, f, tokens[used..], next);
    }
  }

  /** A confidence the parser sets is one that reads back. */
  lemma {:induction false} ParsedReadsBack(v: Vocabulary, f: Floats, tokens: seq<string>, p: Parsed)
    requires Readable(v, f) && ReadsBack(f, p.confidence)
    ensures ReadsBack(f, ParseRest(v, f, tokens, p).confidence)
    decreases |tokens|
  {
    hide Step, Readable, ReadsBack;
    if tokens != [] {
      StepReadsBack(v, f, tokens, p);
      var (next, used) := Step(v, f, tokens, p);
      ParsedReadsBack(v, f, tokens[used..], next);
    }
  }

  lemma StepReadsBack(v: Vocabulary, f: Floats, tokens: seq<string>, p: Parsed)
    requires tokens != [] && Readable(v, f) && ReadsBack(f, p.confidence)
    ensures ReadsBack(f, Step(v, f, tokens, p).0.confidence)
  {
    hide Resolve, NumberOf, Clamp, IsAction, IsObject, IsState, IsMeta, IsTargetState, IsStateWord, IsPriority,
      IsTruth, END_WORD, STATE_WORD, TARGET_WORD, CONFIDENCE_WORD;
  }

  // ---- Running the parser over printed tokens ----

  /** The branch a filed name takes when it is met again. */
  lemma NameBranch(v: Vocabulary, n: string, objectSet: bool, more: bool)
    requires n in v.byName
    ensures var b := BranchOf(n, v.byName[n], objectSet, more);
            && (ActionName(v, n) ==> b == BAction)
            && (PriorityName(v, n) ==> b == BPriority)
            && (ObjectName(v, n) && n != TARGET_WORD && (n != STATE_WORD || objectSet) ==> b == BObject)
            && (n == STATE_WORD && !objectSet ==> b == BObjectState)
  {
    hide IsAction, IsObject, IsState, IsMeta, IsTargetState, IsStateWord, IsPriority, IsTruth, END_WORD, STATE_WORD,
      TARGET_WORD, CONFIDENCE_WORD;
    Keywords();
  }

  lemma TargetStateBranch(v: Vocabulary, t: string, objectSet: bool, more: bool)
    requires ReservedWords(v) && t in v.byName && IsTargetState(t)
    ensures BranchOf(t, v.byName[t], objectSet, more) == BState
  {
    hide IsAction, IsObject, IsState, IsMeta, IsTargetState, IsStateWord, IsPriority, IsTruth, END_WORD, STATE_WORD,
      TARGET_WORD, CONFIDENCE_WORD;
    Keywords();
    TargetStatesAreNotPriorities(t);
  }

  lemma FiledNames(v: Vocabulary, n: string)
    ensures ActionName(v, n) || PriorityName(v, n) || ObjectName(v, n) ==> n in v.byName
    ensures PriorityName(v, n) || ActionName(v, n) ==> n != TARGET_WORD
  {
    Keywords();
  }

  /** What the loop does with a vocabulary name, by the branch it takes. */
  lemma ParseName(v: Vocabulary, f: Floats, n: string, rest: seq<string>, p: Parsed)
    requires WellFormed(v) && n in v.byName
    ensures var b := BranchOf(n, v.byName[n], p.object_.Some?, |[n] + rest| > 1);
            var all := ParseRest(v, f, [n] + rest, p);
            && (b == BAction ==> all == ParseRest(v, f, rest, p.(actions := p.actions + [n])))
            && (b == BPriority ==> all == ParseRest(v, f, rest, p.(priority := Some(n))))
            && (b == BObjectState || (b == BObject && p.object_.None?) ==>
                  all == ParseRest(v, f, rest, p.(object_ := Some(n))))
            && (b == BObject && p.object_.Some? && p.destination.None? ==>
                  all == ParseRest(v, f, rest, p.(destination := Some(n))))
            && (b == BState && IsTargetState(n) && p.target.None? ==>
                  all == ParseRest(v, f, rest, p.(target := Some(n))))
            && (((b == BState && !(IsTargetState(n) && p.target.None?)) || b == BBool) && p.state.None? ==>
                  all == ParseRest(v, f, rest, p.(state := Some(n))))
  {
    hide NumberOf, Clamp, Resolve, WellFormed, BranchOf, IsAction, IsObject, IsState, IsMeta, IsTargetState,
      IsStateWord, IsPriority, IsTruth, END_WORD, STATE_WORD, TARGET_WORD, CONFIDENCE_WORD;
    NameResolves(v, n);
    assert ([n] + rest)[1..] == rest;
  }

  lemma {:induction false} RunActions(v: Vocabulary, f: Floats, actions: seq<string>, rest: seq<string>, p: Parsed)
    requires WellFormed(v) && forall i :: 0 <= i < |actions| ==> ActionName(v, actions[i])
    ensures ParseRest(v, f, actions + rest, p) == ParseRest(v, f, rest, p.(actions := p.actions + actions))
    decreases |actions|
  {
    hide ParseRest, WellFormed, BranchOf, IsAction, IsObject, IsState, IsMeta, IsTargetState, IsStateWord, IsPriority,
      IsTruth, END_WORD, STATE_WORD, TARGET_WORD, CONFIDENCE_WORD, ObjectName, PriorityName, ActionName;
    if actions == [] {
      assert actions + rest == rest && p.actions + actions == p.actions;
    } else {
      var (a, more) := (actions[0], actions[1..]);
      assert actions + rest == [a] + (more + rest);
      FiledNames(v, a);
      NameBranch(v, a, p.object_.Some?, |[a] + (more + rest)| > 1);
      ParseName(v, f, a, more + rest, p);
      RunActions(v, f, more, rest, p.(actions := p.actions + [a]));
      assert p.actions + [a] + more == p.actions + actions;
    }
  }

  function Opt(field: Option<string>): seq<string>
  {
    if field.Some? then [field.value] else []
  }

  lemma NoTokens(rest: seq<string>)
    ensures [] + rest == rest
  {
  }

  lemma RunObject(v: Vocabulary, f: Floats, o: Option<string>, rest: seq<string>, p: Parsed)
    requires WellFormed(v) && p.object_ == None
    requires o.Some? ==> o.value in v.byName && o.value != TARGET_WORD
                         && (o.value == STATE_WORD || ObjectName(v, o.value))
    ensures ParseRest(v, f, Opt(o) + rest, p) == ParseRest(v, f, rest, p.(object_ := o))
  {
    hide ParseRest, WellFormed, BranchOf, IsAction, IsObject, IsState, IsMeta, IsTargetState, IsStateWord, IsPriority,
      IsTruth, END_WORD, STATE_WORD, TARGET_WORD, CONFIDENCE_WORD, ObjectName, PriorityName, ActionName;
    NoTokens(rest);
    if o.Some? {
      FiledNames(v, o.value);
      NameBranch(v, o.value, p.object_.Some?, |[o.value] + rest| > 1);
      ParseName(v, f, o.value, rest, p);
    }
  }

  lemma RunTarget(v: Vocabulary, f: Floats, t: Option<string>, rest: seq<string>, p: Parsed)
    requires WellFormed(v) && ReservedWords(v) && p.target == None
    requires t.Some? ==> t.value in v.byName && IsTargetState(t.value)
    ensures ParseRest(v, f, Opt(t) + rest, p) == ParseRest(v, f, rest, p.(target := t))
  {
    hide ParseRest, WellFormed, BranchOf, IsAction, IsObject, IsState, IsMeta, IsTargetState, IsStateWord, IsPriority,
      IsTruth, END_WORD, STATE_WORD, TARGET_WORD, CONFIDENCE_WORD, ObjectName, PriorityName, ActionName;
    NoTokens(rest);
    if t.Some? {
      FiledNames(v, t.value);
      TargetStateBranch(v, t.value, p.object_.Some?, |[t.value] + rest| > 1);
      ParseName(v, f, t.value, rest, p);
    }
  }

  lemma StateBranch(v: Vocabulary, s: string, objectSet: bool, more: bool)
    requires StateName(v, s) && (s == STATE_WORD ==> objectSet)
    ensures var b := BranchOf(s, v.byName[s], objectSet, more);
            b == BState || (b == BBool && !IsTargetState(s))
  {
    hide IsAction, IsObject, IsState, IsMeta, IsTargetState, IsStateWord, IsPriority, IsTruth, END_WORD, STATE_WORD,
      TARGET_WORD, CONFIDENCE_WORD;
  }

  lemma StateIsKnown(v: Vocabulary, s: string)
    requires StateName(v, s)
    ensures s in v.byName
  {
  }

  lemma RunState(v: Vocabulary, f: Floats, s: Option<string>, rest: seq<string>, p: Parsed)
    requires WellFormed(v) && p.state == None
    requires s.Some? ==> StateName(v, s.value) && (IsTargetState(s.value) ==> p.target.Some?)
                         && (s.value == STATE_WORD ==> p.object_.Some?)
    ensures ParseRest(v, f, Opt(s) + rest, p) == ParseRest(v, f, rest, p.(state := s))
  {
    hide ParseRest, WellFormed, BranchOf, IsAction, IsObject, IsState, IsMeta, IsTargetState, IsStateWord, IsPriority,
      IsTruth, END_WORD, STATE_WORD, TARGET_WORD, CONFIDENCE_WORD, StateName;
    NoTokens(rest);
    if s.Some? {
      StateBranch(v, s.value, p.object_.Some?, |[s.value] + rest| > 1);
      StateIsKnown(v, s.value);
      ParseName(v, f, s.value, rest, p);
    }
  }

  lemma RunPriority(v: Vocabulary, f: Floats, q: Option<string>, rest: seq<string>, p: Parsed)
    requires WellFormed(v) && (q.Some? ==> PriorityName(v, q.value)) && p.priority == None
    ensures ParseRest(v, f, Opt(q) + rest, p) == ParseRest(v, f, rest, p.(priority := q))
  {
    hide ParseRest, WellFormed, BranchOf, IsAction, IsObject, IsState, IsMeta, IsTargetState, IsStateWord, IsPriority,
      IsTruth, END_WORD, STATE_WORD, TARGET_WORD, CONFIDENCE_WORD, ObjectName, PriorityName, ActionName;
    NoTokens(rest);
    if q.Some? {
      FiledNames(v, q.value);
      NameBranch(v, q.value, p.object_.Some?, |[q.value] + rest| > 1);
      ParseName(v, f, q.value, rest, p);
    }
  }

  lemma RunDestination(v: Vocabulary, f: Floats, d: Option<string>, rest: seq<string>, p: Parsed)
    requires WellFormed(v) && p.destination == None
    requires d.Some? ==> ObjectName(v, d.value) && d.value != TARGET_WORD && p.object_.Some?
    ensures ParseRest(v, f, Opt(d) + rest, p) == ParseRest(v, f, rest, p.(destination := d))
  {
    hide ParseRest, WellFormed, BranchOf, IsAction, IsObject, IsState, IsMeta, IsTargetState, IsStateWord, IsPriority,
      IsTruth, END_WORD, STATE_WORD, TARGET_WORD, CONFIDENCE_WORD, ObjectName, PriorityName, ActionName;
    NoTokens(rest);
    if d.Some? {
      FiledNames(v, d.value);
      NameBranch(v, d.value, p.object_.Some?, |[d.value] + rest| > 1);
      ParseName(v, f, d.value, rest, p);
    }
  }

  /** The confidence pair and the terminator. */
  lemma RunTail(v: Vocabulary, f: Floats, c: Option<real>, p: Parsed)
    requires WellFormed(v) && ReservedWords(v) && ReadsBack(f, c) && p.confidence == None
    requires c.Some? ==> 0.0 <= c.value <= 1.0 && CONFIDENCE_WORD in v.byName && !IsAction(v.byName[CONFIDENCE_WORD])
    ensures ParseRest(v, f, ConfidenceTokens(f, c) + [END_WORD], p) == p.(confidence := c, end := true)
  {
    hide Resolve, WellFormed, IsAction, IsObject, IsState, IsMeta, IsTargetState, IsStateWord, IsPriority, IsTruth,
      END_WORD, STATE_WORD, TARGET_WORD, CONFIDENCE_WORD;
    Keywords();
    NameResolves(v, END_WORD);
    EndOnly(v, f, p.(confidence := c));
    if c.Some? {
      NameResolves(v, CONFIDENCE_WORD);
      var tokens := ConfidenceTokens(f, c) + [END_WORD];
      assert tokens[1] == f.show(c.value) && tokens[2..] == [END_WORD];
    } else {
      NoTokens([END_WORD]);
    }
  }

  lemma EndOnly(v: Vocabulary, f: Floats, p: Parsed)
    requires WellFormed(v) && ReservedWords(v)
    ensures ParseRest(v, f, [END_WORD], p) == p.(end := true)
  {
    hide Resolve, WellFormed, IsAction, IsObject, IsState, IsMeta, IsTargetState, IsStateWord, IsPriority, IsTruth,
      END_WORD, STATE_WORD, TARGET_WORD, CONFIDENCE_WORD;
    NameResolves(v, END_WORD);
    assert [END_WORD][1..] == [];
  }

  // ---- The domain of the round trip ----

  /** What a caller can check before printing. */
  ghost predicate Printable(p: Parsed)
  {
    && p.actions != []
    && (p.target.Some? ==> IsTargetState(p.target.value))
    && p.object_ != Some(TARGET_WORD) && p.destination != Some(TARGET_WORD)
  }

  /** Printing and parsing again gives the fields back, terminated and without errors. */
  ghost predicate RoundTrips(v: Vocabulary, f: Floats, p: Parsed)
  {
    && EncodeTokens(v, f, p).Ok?
    && ParseRest(v, f, EncodeTokens(v, f, p).value, NOTHING) == p.(end := true, errors := [])
  }

  /** Vocabulary names are in upper case already. */
  lemma {:induction false} UpperName(s: string)
    requires forall i :: 0 <= i < |s| ==> IsUpper(s[i]) || s[i] == '-'
    ensures Upper(s) == s
  {
    if s != "" {
      UpperName(s[1..]);
    }
  }

  lemma UpperNames(v: Vocabulary, names: seq<string>)
    requires WellFormed(v) && forall i :: 0 <= i < |names| ==> names[i] in v.byName
    ensures UpperAll(names) == names
  {
    forall i | 0 <= i < |names|
      ensures UpperAll(names)[i] == names[i]
    {
      UpperName(names[i]);
    }
  }

  ghost predicate Known(v: Vocabulary, field: Option<string>)
  {
    field.Some? ==> field.value in v.byName
  }

  lemma KnownIsPrinted(v: Vocabulary, field: Option<string>)
    requires WellFormed(v) && Known(v, field)
    ensures Printed(v, field) == Opt(field)
    ensures Given(field) ==> Upper(field.value) in v.byName
  {
    if field.Some? {
      UpperName(field.value);
    }
  }

  lemma FieldsAreKnown(v: Vocabulary, p: Parsed)
    requires Reachable(v, p)
    ensures forall i :: 0 <= i < |p.actions| ==> p.actions[i] in v.byName
    ensures Known(v, p.object_) && Known(v, p.target) && Known(v, p.state)
    ensures Known(v, p.priority) && Known(v, p.destination)
  {
  }

  /** The printed tokens of a parse result, grouped the way the parser meets them. */
  lemma PrintedTokens(v: Vocabulary, f: Floats, p: Parsed)
    requires WellFormed(v) && Reachable(v, p) && p.actions != []
    ensures EncodeTokens(v, f, p).Ok?
    ensures EncodeTokens(v, f, p).value ==
            p.actions + (Opt(p.object_) + (Opt(p.target) + (Opt(p.state) + (Opt(p.priority) + (Opt(p.destination)
            + (ConfidenceTokens(f, p.confidence) + [END_WORD]))))))
  {
    hide WellFormed, Reachable, Known, Printed, Opt, UpperAll, Upper, END_WORD, ConfidenceTokens;
    FieldsAreKnown(v, p);
    UpperNames(v, p.actions);
    KnownIsPrinted(v, p.object_);
    KnownIsPrinted(v, p.target);
    KnownIsPrinted(v, p.state);
    KnownIsPrinted(v, p.priority);
    KnownIsPrinted(v, p.destination);
    assert forall a :: a in p.actions ==> a in v.byName;
    Regroup(p.actions, Opt(p.object_), Opt(p.target), Opt(p.state), Opt(p.priority), Opt(p.destination),
            ConfidenceTokens(f, p.confidence), [END_WORD]);
  }

  lemma Regroup<T>(a: seq<T>, b: seq<T>, c: seq<T>, d: seq<T>, e: seq<T>, g: seq<T>, h: seq<T>, i: seq<T>)
    ensures a + b + c + d + e + g + h + i == a + (b + (c + (d + (e + (g + (h + i))))))
  {
  }

  lemma PrintableRoundTrips(v: Vocabulary, f: Floats, p: Parsed)
    requires WellFormed(v) && ReservedWords(v) && ReadsBack(f, p.confidence) && Reachable(v, p) && Printable(p)
    ensures RoundTrips(v, f, p)
  {
    hide WellFormed, ReservedWords, ReadsBack, IsAction, IsObject, IsState, IsMeta, IsTargetState, IsStateWord,
      IsPriority, IsTruth, END_WORD, STATE_WORD, TARGET_WORD, CONFIDENCE_WORD, ConfidenceTokens, ParseRest,
      EncodeTokens;
    PrintedTokens(v, f, p);
    var r6 := ConfidenceTokens(f, p.confidence) + [END_WORD];
    var r5 := Opt(p.destination) + r6;
    var r4 := Opt(p.priority) + r5;
    var r3 := Opt(p.state) + r4;
    var r2 := Opt(p.target) + r3;
    var r1 := Opt(p.object_) + r2;
    var q1 := NOTHING.(actions := [] + p.actions);
    var q2 := q1.(object_ := p.object_);
    var q3 := q2.(target := p.target);
    var q4 := q3.(state := p.state);
    var q5 := q4.(priority := p.priority);
    var q6 := q5.(destination := p.destination);
    RunActions(v, f, p.actions, r1, NOTHING);
    RunObject(v, f, p.object_, r2, q1);
    RunTarget(v, f, p.target, r3, q2);
    RunState(v, f, p.state, r4, q3);
    RunPriority(v, f, p.priority, r5, q4);
    RunDestination(v, f, p.destination, r6, q5);
    RunTail(v, f, p.confidence, q6);
    NoTokens(p.actions);
  }

  // ---- Outside the domain the round trip fails ----

  /** TARGET as an object or destination needs TARGET as the very last token. */
  lemma {:induction false} TargetNeverFiled(v: Vocabulary, f: Floats, tokens: seq<string>, p: Parsed)
    requires WellFormed(v) && ReservedWords(v) && tokens != [] && tokens[|tokens| - 1] == END_WORD
    requires p.object_ != Some(TARGET_WORD) && p.destination != Some(TARGET_WORD)
    ensures var q := ParseRest(v, f, tokens, p); q.object_ != Some(TARGET_WORD) && q.destination != Some(TARGET_WORD)
    decreases |tokens|
  {
    hide Step, Resolve, WellFormed, ReservedWords, END_WORD, TARGET_WORD;
    StepNeverFilesTarget(v, f, tokens, p);
    var (next, used) := Step(v, f, tokens, p);
    if used < |tokens| {
      TargetNeverFiled(v, f, tokens[used..], next);
    } else {
      assert tokens[used..] == [];
    }
  }

  lemma StepNeverFilesTarget(v: Vocabulary, f: Floats, tokens: seq<string>, p: Parsed)
    requires WellFormed(v) && ReservedWords(v) && tokens != [] && (|tokens| == 1 ==> tokens[0] == END_WORD)
    requires p.object_ != Some(TARGET_WORD) && p.destination != Some(TARGET_WORD)
    ensures var q := Step(v, f, tokens, p).0; q.object_ != Some(TARGET_WORD) && q.destination != Some(TARGET_WORD)
  {
    hide Resolve, WellFormed, NumberOf, Clamp, IsAction, IsObject, IsState, IsMeta, IsTargetState, IsStateWord,
      IsPriority, IsTruth, END_WORD, STATE_WORD, TARGET_WORD, CONFIDENCE_WORD;
    Keywords();
    NameResolves(v, END_WORD);
  }

  /** The token stands for a known name. */
  predicate Names(v: Vocabulary, token: string, name: string)
  {
    Resolve(v, token).entry.Some? && Resolve(v, token).name == Some(name)
  }

  /** TARGET as a target needs two TARGET tokens in a row. */
  lemma {:induction false} TargetNeedsPair(v: Vocabulary, f: Floats, tokens: seq<string>, p: Parsed)
    requires p.target != Some(TARGET_WORD)
    requires forall i :: 0 <= i < |tokens| - 1 ==>
                           !(Names(v, tokens[i], TARGET_WORD) && Names(v, tokens[i + 1], TARGET_WORD))
    ensures ParseRest(v, f, tokens, p).target != Some(TARGET_WORD)
    decreases |tokens|
  {
    hide Step, Names, TARGET_WORD;
    if tokens != [] {
      NotTargetState();
      StepTarget(v, f, tokens, p, TARGET_WORD);
      var (next, used) := Step(v, f, tokens, p);
      if |tokens| > 1 {
        assert !(Names(v, tokens[0], TARGET_WORD) && Names(v, tokens[0 + 1], TARGET_WORD));
      }
      var rest := tokens[used..];
      forall i | 0 <= i < |rest| - 1
        ensures !(Names(v, rest[i], TARGET_WORD) && Names(v, rest[i + 1], TARGET_WORD))
      {
        assert rest[i] == tokens[used + i] && rest[i + 1] == tokens[used + i + 1];
      }
      TargetNeedsPair(v, f, rest, next);
    }
  }

  lemma NotTargetState()
    ensures !IsTargetState(TARGET_WORD)
  {
    Keywords();
  }

  /** Where a step can take a target from. */
  lemma StepTarget(v: Vocabulary, f: Floats, tokens: seq<string>, p: Parsed, t: string)
    requires tokens != [] && !IsTargetState(t) && p.target != Some(t)
    ensures Step(v, f, tokens, p).0.target == Some(t) ==>
              |tokens| > 1 && Names(v, tokens[0], TARGET_WORD) && Names(v, tokens[1], t)
  {
    hide Resolve, NumberOf, Clamp, IsAction, IsObject, IsState, IsMeta, IsTargetState, IsStateWord, IsPriority,
      IsTruth, END_WORD, STATE_WORD, TARGET_WORD, CONFIDENCE_WORD;
  }

  /** Over names other than TARGET, only state words can become the target. */
  lemma {:induction false} TargetFromNames(v: Vocabulary, f: Floats, names: seq<string>, tail: seq<string>, p: Parsed)
    returns (q: Parsed)
    requires WellFormed(v) && Readable(v, f)
    requires forall i :: 0 <= i < |names| ==> names[i] in v.byName && names[i] != TARGET_WORD
    requires tail != [] && tail[0] in v.byName
    ensures ParseRest(v, f, names + tail, p) == ParseRest(v, f, tail, q)
    ensures q.target == p.target || (q.target.Some? && IsTargetState(q.target.value))
    decreases |names|
  {
    hide Step, WellFormed, Readable, TARGET_WORD, IsTargetState;
    if names == [] {
      assert names + tail == tail;
      q := p;
    } else {
      var tokens := names + tail;
      assert tokens[1] in v.byName by {
        assert tokens[1] == if |names| > 1 then names[1] else tail[0];
      }
      NameStep(v, f, tokens, p);
      var next := Step(v, f, tokens, p).0;
      assert tokens[1..] == names[1..] + tail;
      q := TargetFromNames(v, f, names[1..], tail, next);
    }
  }

  lemma NameStep(v: Vocabulary, f: Floats, tokens: seq<string>, p: Parsed)
    requires WellFormed(v) && Readable(v, f) && |tokens| > 1
    requires tokens[0] in v.byName && tokens[0] != TARGET_WORD && tokens[1] in v.byName
    ensures Step(v, f, tokens, p).1 == 1
    ensures var q := Step(v, f, tokens, p).0;
            q.target == p.target || (q.target.Some? && IsTargetState(q.target.value))
  {
    hide Resolve, WellFormed, Clamp, AllDigits, IsAction, IsObject, IsState, IsMeta, IsTargetState, IsStateWord,
      IsPriority, IsTruth, END_WORD, STATE_WORD, TARGET_WORD, CONFIDENCE_WORD;
    NameResolves(v, tokens[0]);
    NameIsNoNumber(v, f, tokens[1]);
  }

  lemma NameIsNoNumber(v: Vocabulary, f: Floats, name: string)
    requires WellFormed(v) && Readable(v, f) && name in v.byName
    ensures NumberOf(f, name) == None
  {
    CleanName(name);
    assert !IsDigit(name[0]);
  }

  /** The names printed after the target. */
  function LaterNames(p: Parsed): seq<string>
  {
    Opt(p.state) + Opt(p.priority) + Opt(p.destination)
  }

  lemma LaterNamesAreKnown(v: Vocabulary, p: Parsed)
    requires Reachable(v, p) && p.destination != Some(TARGET_WORD)
    ensures forall i :: 0 <= i < |LaterNames(p)| ==> LaterNames(p)[i] in v.byName && LaterNames(p)[i] != TARGET_WORD
  {
    Keywords();
  }

  lemma EarlyNamesAreKnown(v: Vocabulary, p: Parsed)
    requires Reachable(v, p) && p.object_ != Some(TARGET_WORD)
    ensures var names := p.actions + Opt(p.object_);
            forall i :: 0 <= i < |names| ==> names[i] in v.byName && names[i] != TARGET_WORD
  {
    hide IsAction, IsObject, IsState, IsMeta, IsTargetState, IsStateWord, IsPriority, IsTruth;
    Keywords();
  }

  /** The printed tokens as names, the target among them, and the tail. */
  lemma PrintedAsNames(v: Vocabulary, f: Floats, p: Parsed)
    requires WellFormed(v) && Reachable(v, p) && p.actions != []
    ensures EncodeTokens(v, f, p).Ok?
    ensures EncodeTokens(v, f, p).value ==
            (p.actions + Opt(p.object_)) + (Opt(p.target)
                                            + (LaterNames(p) + (ConfidenceTokens(f, p.confidence) + [END_WORD])))
  {
    hide WellFormed, Reachable, EncodeTokens, ConfidenceTokens, Opt, END_WORD;
    PrintedTokens(v, f, p);
    var tail := ConfidenceTokens(f, p.confidence) + [END_WORD];
    Regroup(p.actions, Opt(p.object_), Opt(p.target), Opt(p.state), Opt(p.priority), Opt(p.destination),
            ConfidenceTokens(f, p.confidence), [END_WORD]);
    assert p.actions + (Opt(p.object_) + (Opt(p.target) + (Opt(p.state) + (Opt(p.priority)
                        + (Opt(p.destination) + tail)))))
        == (p.actions + Opt(p.object_))
           + (Opt(p.target) + ((Opt(p.state) + Opt(p.priority) + Opt(p.destination)) + tail));
  }

  lemma TailStartsWithName(v: Vocabulary, f: Floats, p: Parsed)
    requires ReservedWords(v) && Reachable(v, p)
    ensures var tail := ConfidenceTokens(f, p.confidence) + [END_WORD]; tail != [] && tail[0] in v.byName
  {
  }

  /** A target that is no state word does not survive. */
  lemma OtherTargetIsLost(v: Vocabulary, f: Floats, p: Parsed)
    requires WellFormed(v) && ReservedWords(v) && Readable(v, f) && ReadsBack(f, p.confidence) && Reachable(v, p)
    requires p.actions != [] && p.object_ != Some(TARGET_WORD) && p.destination != Some(TARGET_WORD)
    requires p.target.Some? && !IsTargetState(p.target.value)
    ensures !RoundTrips(v, f, p)
  {
    hide WellFormed, ReservedWords, Readable, ReadsBack, Reachable, ParseRest, EncodeTokens, IsTargetState,
      TARGET_WORD, LaterNames;
    var early := p.actions + Opt(p.object_);
    var tail := ConfidenceTokens(f, p.confidence) + [END_WORD];
    PrintedAsNames(v, f, p);
    EarlyNamesAreKnown(v, p);
    LaterNamesAreKnown(v, p);
    TailStartsWithName(v, f, p);
    TargetIsKnown(v, p);
    var t := p.target.value;
    if t == TARGET_WORD {
      var rest := LaterNames(p) + tail;
      var q := TargetFromNames(v, f, early, [t] + rest, NOTHING);
      NoPairAfter(v, f, p, [t] + rest);
      NotTargetState();
      TargetNeedsPair(v, f, [t] + rest, q);
    } else {
      var names := early + [t] + LaterNames(p);
      assert early + ([t] + (LaterNames(p) + tail)) == names + tail;
      var q := TargetFromNames(v, f, names, tail, NOTHING);
      ConfidenceIsKnown(v, p);
      TailKeepsTarget(v, f, p.confidence, q);
    }
  }

  lemma ConfidenceIsKnown(v: Vocabulary, p: Parsed)
    requires Reachable(v, p)
    ensures p.confidence.Some? ==>
              0.0 <= p.confidence.value <= 1.0 && CONFIDENCE_WORD in v.byName && !IsAction(v.byName[CONFIDENCE_WORD])
  {
  }

  lemma TargetIsKnown(v: Vocabulary, p: Parsed)
    requires Reachable(v, p) && p.target.Some?
    ensures p.target.value in v.byName
  {
  }

  /** Behind a TARGET token, the first printed token is not TARGET; later only a number could be, and END follows it. */
  lemma NoPairAfter(v: Vocabulary, f: Floats, p: Parsed, tokens: seq<string>)
    requires WellFormed(v) && ReservedWords(v) && Reachable(v, p) && p.destination != Some(TARGET_WORD)
    requires tokens == [TARGET_WORD] + (LaterNames(p) + (ConfidenceTokens(f, p.confidence) + [END_WORD]))
    ensures forall i :: 0 <= i < |tokens| - 1 ==>
                          !(Names(v, tokens[i], TARGET_WORD) && Names(v, tokens[i + 1], TARGET_WORD))
  {
    hide WellFormed, ReservedWords, Reachable, Names, TARGET_WORD, END_WORD, LaterNames, CONFIDENCE_WORD;
    LaterNamesAreKnown(v, p);
    var later := LaterNames(p);
    var k := |later| + 1;
    ReservedNames(v, p);
    forall i | 0 <= i < |tokens| - 1
      ensures !Names(v, tokens[i], TARGET_WORD) || !Names(v, tokens[i + 1], TARGET_WORD)
    {
      if i + 1 < k {
        assert tokens[i + 1] == later[i];
        OtherName(v, later[i]);
      } else if p.confidence.Some? {
        assert tokens[k] == CONFIDENCE_WORD && tokens[k + 2] == END_WORD;
      } else {
        assert tokens[k] == END_WORD;
      }
    }
  }

  lemma OtherName(v: Vocabulary, name: string)
    requires WellFormed(v) && name in v.byName && name != TARGET_WORD
    ensures !Names(v, name, TARGET_WORD)
  {
    NameResolves(v, name);
  }

  lemma ReservedNames(v: Vocabulary, p: Parsed)
    requires WellFormed(v) && ReservedWords(v) && Reachable(v, p)
    ensures !Names(v, END_WORD, TARGET_WORD)
    ensures p.confidence.Some? ==> !Names(v, CONFIDENCE_WORD, TARGET_WORD)
  {
    hide IsAction, IsObject, IsState, IsMeta, IsTargetState, IsStateWord, IsPriority, IsTruth, Names;
    Keywords();
    OtherName(v, END_WORD);
    if p.confidence.Some? {
      OtherName(v, CONFIDENCE_WORD);
    }
  }

  lemma TailKeepsTarget(v: Vocabulary, f: Floats, c: Option<real>, q: Parsed)
    requires WellFormed(v) && ReservedWords(v) && ReadsBack(f, c)
    requires c.Some? ==> 0.0 <= c.value <= 1.0 && CONFIDENCE_WORD in v.byName && !IsAction(v.byName[CONFIDENCE_WORD])
    ensures ParseRest(v, f, ConfidenceTokens(f, c) + [END_WORD], q).target == q.target
  {
    hide Resolve, WellFormed, IsAction, IsObject, IsState, IsMeta, IsTargetState, IsStateWord, IsPriority, IsTruth,
      END_WORD, STATE_WORD, TARGET_WORD, CONFIDENCE_WORD;
    Keywords();
    NameResolves(v, END_WORD);
    EndOnly(v, f, q);
    if c.Some? {
      NameResolves(v, CONFIDENCE_WORD);
      EndOnly(v, f, q.(confidence := c));
      var tokens := ConfidenceTokens(f, c) + [END_WORD];
      assert tokens[1] == f.show(c.value) && tokens[2..] == [END_WORD];
    } else {
      NoTokens([END_WORD]);
    }
  }

  lemma EncodeEndsWithEnd(v: Vocabulary, f: Floats, p: Parsed)
    requires EncodeTokens(v, f, p).Ok?
    ensures p.actions != []
    ensures var tokens := EncodeTokens(v, f, p).value; tokens != [] && tokens[|tokens| - 1] == END_WORD
  {
  }

  /**
   The exact domain of the symbolic round trip: over every text, printing what the parser made of it
   and parsing that gives the same fields, terminated and without errors, exactly when there is an
   action, the target is empty or a state word, and TARGET itself is neither object nor destination.
   */
  lemma NormalForm(v: Vocabulary, f: Floats, text: seq<string>)
    requires WellFormed(v) && ReservedWords(v) && Readable(v, f)
    ensures var p := ParseRest(v, f, text, NOTHING);
            RoundTrips(v, f, p) <==> Printable(p)
  {
    hide WellFormed, ReservedWords, Readable, ReadsBack, Reachable, ParseRest, EncodeTokens, IsTargetState,
      TARGET_WORD, END_WORD;
    var p := ParseRest(v, f, text, NOTHING);
    NothingIsReachable(v);
    ParseIsReachable(v, f, text, NOTHING);
    ParsedReadsBack(v, f, text, NOTHING);
    if Printable(p) {
      PrintableRoundTrips(v, f, p);
    }
    if RoundTrips(v, f, p) {
      EncodeEndsWithEnd(v, f, p);
      TargetNeverFiled(v, f, EncodeTokens(v, f, p).value, NOTHING);
      if p.target.Some? && !IsTargetState(p.target.value) {
        OtherTargetIsLost(v, f, p);
      }
    }
  }

  lemma NothingIsReachable(v: Vocabulary)
    ensures Reachable(v, NOTHING) && forall f :: ReadsBack(f, NOTHING.confidence)
  {
  }

  /** The failing family is not empty: a named target that is no state word is printed bare. */
  lemma NormalFormFails(v: Vocabulary, f: Floats)
    requires WellFormed(v) && ReservedWords(v) && Readable(v, f) && TARGET_WORD in v.byName
    requires "READ" in v.byName && IsAction(v.byName["READ"]) && "PDF" in v.byName
    ensures var p := ParseRest(v, f, ["READ", TARGET_WORD, "PDF"], NOTHING);
            p.actions == ["READ"] && p.target == Some("PDF") && p.errors == [] && !RoundTrips(v, f, p)
  {
    hide Resolve, WellFormed, ReservedWords, Readable, RoundTrips, Step, IsAction, TARGET_WORD;
    var text := ["READ", TARGET_WORD, "PDF"];
    var next := NOTHING.(actions := ["READ"]);
    ReadStep(v, f, text, NOTHING);
    assert [] + ["READ"] == ["READ"];
    assert text[1..] == [TARGET_WORD, "PDF"] && text[1..][2..] == [];
    TargetStep(v, f, text[1..], next);
    var last := next.(target := Some("PDF"));
    assert ParseRest(v, f, text, NOTHING) == ParseRest(v, f, text[1..], next);
    assert ParseRest(v, f, text[1..], next) == ParseRest(v, f, text[1..][2..], last) == last;
    NormalForm(v, f, text);
  }

  lemma ReadStep(v: Vocabulary, f: Floats, tokens: seq<string>, p: Parsed)
    requires WellFormed(v) && tokens != [] && tokens[0] == "READ" && "READ" in v.byName && IsAction(v.byName["READ"])
    ensures Step(v, f, tokens, p) == (p.(actions := p.actions + ["READ"]), 1)
  {
    hide Resolve, WellFormed, NumberOf, Clamp, IsAction, IsObject, IsState, IsMeta, IsTargetState, IsStateWord,
      IsPriority, IsTruth;
    NameResolves(v, "READ");
    assert "READ"[0] != "END"[0] && "READ"[0] != "STATE"[0] && "READ"[0] != "TARGET"[0];
  }

  lemma TargetStep(v: Vocabulary, f: Floats, tokens: seq<string>, p: Parsed)
    requires WellFormed(v) && |tokens| > 1 && tokens[0] == TARGET_WORD && TARGET_WORD in v.byName
    requires tokens[1] in v.byName
    ensures Step(v, f, tokens, p) == (p.(target := Some(tokens[1])), 2)
  {
    hide Resolve, WellFormed, NumberOf, Clamp, IsAction, IsObject, IsState, IsMeta, IsTargetState, IsStateWord,
      IsPriority, IsTruth, END_WORD, STATE_WORD, TARGET_WORD, CONFIDENCE_WORD;
    Keywords();
    NameResolves(v, TARGET_WORD);
    NameResolves(v, tokens[1]);
  }
}
