/** The symbolic and the numeric wire form of a parse result decode to the same canonical state. */
module WireForms {
  import opened Wrappers
  import opened Vocab
  import opened VocabNormalForm

  ghost predicate AllKnown(v: Vocabulary, names: seq<string>)
  {
    forall i :: 0 <= i < |names| ==> names[i] in v.byName
  }

  /** The ids of known names. */
  function IdsOf(v: Vocabulary, names: seq<string>): (r: seq<string>)
    requires AllKnown(v, names)
    ensures |r| == |names|
  {
    seq(|names|, i requires 0 <= i < |names| => v.byName[names[i]].id)
  }

  lemma {:induction false} WithoutKeepsChars(s: string, c: char, i: nat)
    requires i < |Without(s, c)|
    ensures Without(s, c)[i] in s
  {
    if s[0] == c {
      WithoutKeepsChars(s[1..], c, i);
    } else if i > 0 {
      WithoutKeepsChars(s[1..], c, i - 1);
    }
  }

  lemma WordIsNotNumberLike(s: string)
    requires NameChars(s)
    ensures !NumberLike(s)
  {
    var inner := Without(s, '.');
    var outer := Without(inner, '-');
    if outer != "" {
      WithoutKeepsChars(inner, '-', 0);
      var j :| 0 <= j < |inner| && inner[j] == outer[0];
      WithoutKeepsChars(s, '.', j);
      assert !IsDigit(outer[0]);
    }
  }

  /** A vocabulary name is not mistaken for a number, nor for a three-digit word. */
  lemma NameIsNotNumeric(v: Vocabulary, name: string)
    requires WellFormed(v) && name in v.byName
    ensures !NumberLike(name) && !HasThreeDigitWord(name)
  {
    hide NumberLike;
    WordIsNotNumberLike(name);
    forall i | 0 <= i && i + 3 <= |name|
      ensures !ThreeDigitsAt(name, i)
    {
      assert !IsDigit(name[i]);
    }
  }

  /** An id is a three-digit word that translates to its name. */
  lemma IdOfName(v: Vocabulary, name: string)
    requires WellFormed(v) && name in v.byName
    ensures var id := v.byName[name].id;
            && HasThreeDigitWord(id)
            && Clean(id) == id && AllDigits(id) && Zfill3(id) == id
            && id in v.byId && v.byId[id].name == name
  {
    hide Clean, Zfill3, IntOf, AllDigits;
    var id := v.byName[name].id;
    ThreeDigits(id);
    assert ThreeDigitsAt(id, 0);
  }

  lemma {:induction false} ToIdsOfNames(v: Vocabulary, names: seq<string>)
    requires WellFormed(v) && ReservedWords(v) && AllKnown(v, names)
    ensures ToIds(v, names) == Ok(IdsOf(v, names))
    decreases |names|
  {
    hide WellFormed, NumberLike, Resolve, CONFIDENCE_WORD, CONFIDENCE_ID;
    if names != [] {
      var front := names[..|names| - 1];
      var name := names[|names| - 1];
      ToIdsOfNames(v, front);
      NameIsNotNumeric(v, name);
      NameResolves(v, name);
      assert IdsOf(v, names) == IdsOf(v, front) + [v.byName[name].id];
    }
  }

  lemma {:induction false} TranslateIds(v: Vocabulary, names: seq<string>)
    requires WellFormed(v) && AllKnown(v, names)
    ensures Translate(v, IdsOf(v, names)) == Some(names)
    decreases |names|
  {
    hide WellFormed, Clean, AllDigits, Zfill3;
    if names != [] {
      var front := names[..|names| - 1];
      var name := names[|names| - 1];
      TranslateIds(v, front);
      IdOfName(v, name);
      IdIsNotEmpty(v.byName[name].id);
      assert IdsOf(v, names)[..|names| - 1] == IdsOf(v, front);
      assert names == front + [name];
    }
  }

  lemma IdIsNotEmpty(id: string)
    requires AllDigits(id)
    ensures id != ""
  {
  }

  lemma NamesDecodeSymbolically(v: Vocabulary, f: Floats, names: seq<string>, requireEnd: bool)
    requires WellFormed(v) && AllKnown(v, names) && names != []
    ensures Decode(v, f, names, requireEnd) == Symbolic(v, f, names, requireEnd)
  {
    hide WellFormed, HasThreeDigitWord, Symbolic, Numeric;
    forall i | 0 <= i < |names|
      ensures !HasThreeDigitWord(names[i])
    {
      NameIsNotNumeric(v, names[i]);
    }
  }

  lemma IdsDecodeNumerically(v: Vocabulary, f: Floats, names: seq<string>, requireEnd: bool)
    requires WellFormed(v) && AllKnown(v, names) && names != []
    ensures Decode(v, f, IdsOf(v, names), requireEnd) == Symbolic(v, f, names, requireEnd)
  {
    hide WellFormed, HasThreeDigitWord, Symbolic;
    IdOfName(v, names[0]);
    assert HasThreeDigitWord(IdsOf(v, names)[0]);
    TranslateIds(v, names);
  }

  lemma PrintedNames(v: Vocabulary, f: Floats, p: Parsed)
    requires WellFormed(v) && ReservedWords(v) && Reachable(v, p) && p.actions != []
    ensures EncodeTokens(v, f, p).Ok?
    ensures p.confidence == None ==> AllKnown(v, EncodeTokens(v, f, p).value)
  {
    hide WellFormed, EncodeTokens, IsAction, IsObject, IsState, IsMeta, IsTargetState, IsStateWord, IsPriority,
      IsTruth;
    PrintedTokens(v, f, p);
    if p.confidence == None {
      KnownPieces(v, p);
    }
  }

  lemma KnownPieces(v: Vocabulary, p: Parsed)
    requires ReservedWords(v) && Reachable(v, p)
    ensures AllKnown(v, p.actions + (Opt(p.object_) + (Opt(p.target) + (Opt(p.state) + (Opt(p.priority)
                        + (Opt(p.destination) + ([] + [END_WORD])))))))
  {
    hide IsAction, IsObject, IsState, IsMeta, IsTargetState, IsStateWord, IsPriority, IsTruth;
    assert AllKnown(v, p.actions);
    assert AllKnown(v, Opt(p.object_)) && AllKnown(v, Opt(p.target)) && AllKnown(v, Opt(p.state));
    assert AllKnown(v, Opt(p.priority)) && AllKnown(v, Opt(p.destination)) && AllKnown(v, [] + [END_WORD]);
  }

  /**
   The wire forms agree: for everything the parser makes of any text, if it has an action and no
   confidence, both printers succeed and decoding either text gives the same canonical state.
   */
  lemma WireFormsAgree(v: Vocabulary, f: Floats, text: seq<string>, requireEnd: bool)
    requires WellFormed(v) && ReservedWords(v)
    ensures var p := ParseRest(v, f, text, NOTHING);
            p.actions != [] && p.confidence == None ==>
              && EncodeTokens(v, f, p).Ok? && EncodeIds(v, f, p).Ok?
              && var (symbolic, numeric) := (EncodeTokens(v, f, p).value, EncodeIds(v, f, p).value);
              Decode(v, f, symbolic, requireEnd) == Decode(v, f, numeric, requireEnd)
  {
    hide WellFormed, ReservedWords, Reachable, ParseRest, EncodeTokens, Decode, ToIds, AllKnown;
    var p := ParseRest(v, f, text, NOTHING);
    NothingIsReachable(v);
    ParseIsReachable(v, f, text, NOTHING);
    if p.actions != [] && p.confidence == None {
      PrintedNames(v, f, p);
      EncodeEndsWithEnd(v, f, p);
      var names := EncodeTokens(v, f, p).value;
      ToIdsOfNames(v, names);
      NamesDecodeSymbolically(v, f, names, requireEnd);
      IdsDecodeNumerically(v, f, names, requireEnd);
    }
  }

  /** The names of a numeric text: those of the symbolic one without the number. */
  function NumericNames(p: Parsed): seq<string>
  {
    p.actions + (Opt(p.object_) + (Opt(p.target) + (Opt(p.state) + (Opt(p.priority) + (Opt(p.destination)
    + ((if p.confidence.Some? then [CONFIDENCE_WORD] else []) + [END_WORD]))))))
  }

  lemma NumericNamesKnown(v: Vocabulary, p: Parsed)
    requires ReservedWords(v) && Reachable(v, p)
    ensures AllKnown(v, NumericNames(p))
  {
    hide IsAction, IsObject, IsState, IsMeta, IsTargetState, IsStateWord, IsPriority, IsTruth;
    assert AllKnown(v, p.actions);
    assert AllKnown(v, Opt(p.object_)) && AllKnown(v, Opt(p.target)) && AllKnown(v, Opt(p.state));
    assert AllKnown(v, Opt(p.priority)) && AllKnown(v, Opt(p.destination));
  }

  lemma ToIdsSnoc(v: Vocabulary, tokens: seq<string>, token: string)
    ensures ToIds(v, tokens).Ok? && token != CONFIDENCE_WORD && NumberLike(token) ==>
              ToIds(v, tokens + [token]) == ToIds(v, tokens)
    ensures ToIds(v, tokens).Ok? && token != CONFIDENCE_WORD && !NumberLike(token) && Resolve(v, token).entry.Some? ==>
              ToIds(v, tokens + [token]) == Ok(ToIds(v, tokens).value + [Resolve(v, token).entry.value.id])
    ensures ToIds(v, tokens).Ok? && token == "CONFIDENCE" ==>
              ToIds(v, tokens + [token]) == Ok(ToIds(v, tokens).value + ["095"])
    ensures token == CONFIDENCE_WORD || NumberLike(token) || Resolve(v, token).entry.Some? ==>
              (ToIds(v, tokens + [token]).Ok? <==> ToIds(v, tokens).Ok?)
    ensures !(token == CONFIDENCE_WORD || NumberLike(token) || Resolve(v, token).entry.Some?) ==>
              ToIds(v, tokens + [token]).ValueError?
  {
    assert (tokens + [token])[..|tokens|] == tokens;
  }

  lemma NumberIsNotAWord(s: string)
    requires NumberLike(s)
    ensures s != CONFIDENCE_WORD
  {
    hide NumberLike;
    WordIsNotNumberLike(CONFIDENCE_WORD);
  }

  /** encode_numeric drops a plainly printed confidence and keeps its keyword. */
  lemma NumericText(v: Vocabulary, f: Floats, p: Parsed)
    requires WellFormed(v) && ReservedWords(v) && Reachable(v, p) && p.actions != []
    requires p.confidence.Some? ==> NumberLike(f.show(p.confidence.value))
    ensures AllKnown(v, NumericNames(p)) && EncodeIds(v, f, p) == Ok(IdsOf(v, NumericNames(p)))
  {
    hide WellFormed, ReservedWords, Reachable, EncodeTokens, ToIds, AllKnown, Opt, NumberLike, Resolve, END_WORD,
      CONFIDENCE_WORD;
    NumericNamesKnown(v, p);
    PrintedTokens(v, f, p);
    var names := NumericNames(p);
    ToIdsOfNames(v, names);
    if p.confidence.Some? {
      var number := f.show(p.confidence.value);
      var head := PrintedConfidence(v, f, p);
      ToIdsOfNames(v, head);
      NumberIsNotAWord(number);
      ToIdsSnoc(v, head, number);
      EndPrinted(v);
      ToIdsSnoc(v, head + [number], END_WORD);
      ToIdsSnoc(v, head, END_WORD);
    } else {
      assert EncodeTokens(v, f, p).value == names;
    }
  }

  lemma HeadKnown(v: Vocabulary, head: seq<string>)
    requires AllKnown(v, head + [END_WORD])
    ensures AllKnown(v, head)
  {
    forall i | 0 <= i < |head|
      ensures head[i] in v.byName
    {
      assert head[i] == (head + [END_WORD])[i];
    }
  }

  lemma EndPrinted(v: Vocabulary)
    requires WellFormed(v) && ReservedWords(v)
    ensures END_WORD != CONFIDENCE_WORD && !NumberLike(END_WORD) && Resolve(v, END_WORD).entry.Some?
  {
    Keywords();
    NameIsNotNumeric(v, END_WORD);
    NameResolves(v, END_WORD);
  }

  /** The printed tokens around a confidence. */
  lemma PrintedConfidence(v: Vocabulary, f: Floats, p: Parsed) returns (head: seq<string>)
    requires WellFormed(v) && ReservedWords(v) && Reachable(v, p) && p.actions != [] && p.confidence.Some?
    ensures AllKnown(v, head) && NumericNames(p) == head + [END_WORD]
    ensures EncodeTokens(v, f, p) == Ok(head + [f.show(p.confidence.value)] + [END_WORD])
  {
    hide WellFormed, ReservedWords, Reachable, EncodeTokens, AllKnown, Opt, END_WORD, CONFIDENCE_WORD;
    NumericNamesKnown(v, p);
    PrintedTokens(v, f, p);
    head := p.actions + Opt(p.object_) + Opt(p.target) + Opt(p.state) + Opt(p.priority) + Opt(p.destination)
            + [CONFIDENCE_WORD];
    assert NumericNames(p) == head + [END_WORD];
    HeadKnown(v, head);
    assert EncodeTokens(v, f, p).value == head + [f.show(p.confidence.value)] + [END_WORD];
  }

  /** When a parse result has a numeric form: a confidence printed with an exponent makes the encoder raise. */
  lemma NumericFormExists(v: Vocabulary, f: Floats, text: seq<string>)
    requires WellFormed(v) && ReservedWords(v)
    ensures var p := ParseRest(v, f, text, NOTHING);
            EncodeIds(v, f, p).Ok? <==>
            p.actions != [] && (p.confidence.Some? ==>
                                  NumberLike(f.show(p.confidence.value))
                                  || Resolve(v, f.show(p.confidence.value)).entry.Some?)
  {
    hide WellFormed, ReservedWords, Reachable, ParseRest, EncodeTokens, ToIds, AllKnown, NumberLike, Resolve,
      END_WORD, CONFIDENCE_WORD, NumericNames;
    var p := ParseRest(v, f, text, NOTHING);
    NothingIsReachable(v);
    ParseIsReachable(v, f, text, NOTHING);
    if p.actions == [] {
      NoActionsNoForm(v, f, p);
    } else if p.confidence.Some? {
      var number := f.show(p.confidence.value);
      var head := PrintedConfidence(v, f, p);
      ToIdsOfNames(v, head);
      ConfidenceResolves(v, p);
      ToIdsSnoc(v, head, number);
      EndPrinted(v);
      ToIdsSnoc(v, head + [number], END_WORD);
    } else {
      NumericText(v, f, p);
    }
  }

  lemma NoActionsNoForm(v: Vocabulary, f: Floats, p: Parsed)
    requires p.actions == []
    ensures EncodeTokens(v, f, p).ValueError?
  {
  }

  lemma ConfidenceResolves(v: Vocabulary, p: Parsed)
    requires WellFormed(v) && Reachable(v, p) && p.confidence.Some?
    ensures Resolve(v, CONFIDENCE_WORD).entry.Some?
  {
    hide Resolve, WellFormed, CONFIDENCE_WORD;
    NameResolves(v, CONFIDENCE_WORD);
  }

  /**
   What the numeric form means, for every printable parse result: decoding it gives all fields back
   except the confidence, which is lost.
   */
  lemma NumericFormLosesConfidence(v: Vocabulary, f: Floats, text: seq<string>, requireEnd: bool)
    requires WellFormed(v) && ReservedWords(v) && Readable(v, f)
    ensures var p := ParseRest(v, f, text, NOTHING);
            Printable(p) && (p.confidence.Some? ==> NumberLike(f.show(p.confidence.value))) ==>
              && EncodeIds(v, f, p).Ok?
              && Decode(v, f, EncodeIds(v, f, p).value, requireEnd) == p.(confidence := None, end := true, errors := [])
  {
    hide WellFormed, ReservedWords, Readable, Reachable, ParseRest, EncodeIds, Decode, AllKnown, NumberLike,
      NumericNames;
    var p := ParseRest(v, f, text, NOTHING);
    NothingIsReachable(v);
    ParseIsReachable(v, f, text, NOTHING);
    if Printable(p) && (p.confidence.Some? ==> NumberLike(f.show(p.confidence.value))) {
      NumericText(v, f, p);
      NumericNamesNotEmpty(p);
      IdsDecodeNumerically(v, f, NumericNames(p), requireEnd);
      RunNumericNames(v, f, p);
    }
  }

  lemma NumericNamesNotEmpty(p: Parsed)
    ensures NumericNames(p) != []
  {
  }

  lemma RunNumericNames(v: Vocabulary, f: Floats, p: Parsed)
    requires WellFormed(v) && ReservedWords(v) && Readable(v, f) && Reachable(v, p) && Printable(p)
    ensures ParseRest(v, f, NumericNames(p), NOTHING) == p.(confidence := None, end := true, errors := [])
  {
    hide WellFormed, ReservedWords, Readable, IsAction, IsObject, IsState, IsMeta, ParseRest, IsTargetState,
      IsStateWord, IsPriority, IsTruth, ObjectName, StateName, ActionName, PriorityName, END_WORD, STATE_WORD,
      TARGET_WORD, CONFIDENCE_WORD;
    var r6 := (if p.confidence.Some? then [CONFIDENCE_WORD] else []) + [END_WORD];
    var r5 := Opt(p.destination) + r6;
    var r4 := Opt(p.priority) + r5;
    var r3 := Opt(p.state) + r4;
    var r2 := Opt(p.target) + r3;
    var r1 := Opt(p.object_) + r2;
    var q1 := NOTHING.(actions := [] + p.actions);
    var q2 := q1.(object_ := p.object_);
    var q3 := q2.(target := p.target);
    var q4 := q3.(state := p.state);
    var q5 := q4.(priority := p.priority);
    var q6 := q5.(destination := p.destination);
    RunActions(v, f, p.actions, r1, NOTHING);
    RunObject(v, f, p.object_, r2, q1);
    RunTarget(v, f, p.target, r3, q2);
    RunState(v, f, p.state, r4, q3);
    RunPriority(v, f, p.priority, r5, q4);
    RunDestination(v, f, p.destination, r6, q5);
    RunBareTail(v, f, p.confidence.Some?, q6);
    NoTokens(p.actions);
  }

  /** CONFIDENCE directly before END sets nothing. */
  lemma RunBareTail(v: Vocabulary, f: Floats, keyword: bool, p: Parsed)
    requires WellFormed(v) && ReservedWords(v) && Readable(v, f) && p.confidence == None
    requires keyword ==> CONFIDENCE_WORD in v.byName && !IsAction(v.byName[CONFIDENCE_WORD])
    ensures ParseRest(v, f, (if keyword then [CONFIDENCE_WORD] else []) + [END_WORD], p) == p.(end := true)
  {
    hide Resolve, WellFormed, NumberOf, IsAction, IsObject, IsState, IsMeta, IsTargetState, IsStateWord, IsPriority,
      IsTruth, END_WORD, STATE_WORD, TARGET_WORD, CONFIDENCE_WORD;
    Keywords();
    EndOnly(v, f, p);
    NoTokens([END_WORD]);
    if keyword {
      NameResolves(v, CONFIDENCE_WORD);
      NameIsNoNumber(v, f, END_WORD);
      var tokens := [CONFIDENCE_WORD] + [END_WORD];
      assert tokens[1] == END_WORD && tokens[1..] == [END_WORD];
      assert p.(confidence := None) == p;
    }
  }

  /** Only the printed number can look like an id in a symbolic text. */
  lemma SymbolicText(v: Vocabulary, f: Floats, p: Parsed, i: nat)
    requires WellFormed(v) && ReservedWords(v) && Reachable(v, p) && p.actions != [] && p.confidence.Some?
    requires EncodeTokens(v, f, p).Ok? && i < |EncodeTokens(v, f, p).value|
    ensures HasThreeDigitWord(EncodeTokens(v, f, p).value[i]) ==>
              EncodeTokens(v, f, p).value[i] == f.show(p.confidence.value)
  {
    hide WellFormed, ReservedWords, Reachable, EncodeTokens, AllKnown, Opt, HasThreeDigitWord, END_WORD,
      CONFIDENCE_WORD;
    var head := PrintedConfidence(v, f, p);
    var number := f.show(p.confidence.value);
    var tokens := EncodeTokens(v, f, p).value;
    if i < |head| {
      assert tokens[i] == head[i];
      KnownAt(v, head, i);
      NameIsNotNumeric(v, head[i]);
    } else if i == |head| {
      assert tokens[i] == number;
    } else {
      EndKnown(v);
      NameIsNotNumeric(v, END_WORD);
    }
  }

  lemma {:induction false} TranslateStops(v: Vocabulary, tokens: seq<string>, i: nat)
    requires i <= |tokens| && Translate(v, tokens[..i]) == None
    ensures Translate(v, tokens) == None
    decreases |tokens|
  {
    if i < |tokens| {
      assert tokens[..|tokens| - 1][..i] == tokens[..i];
      TranslateStops(v, tokens[..|tokens| - 1], i);
    } else {
      assert tokens[..i] == tokens;
    }
  }

  /** A token of digits that is no id ends the translation. */
  lemma TokenStops(v: Vocabulary, tokens: seq<string>, i: nat)
    requires i < |tokens| && UnknownDigits(v, tokens[i])
    ensures Translate(v, tokens) == None
  {
    hide Clean, Zfill3;
    assert tokens[..i + 1][..i] == tokens[..i];
    assert tokens[..i + 1] != [];
    TranslateStops(v, tokens, i + 1);
  }

  /** All digits when cleaned, but no id: 0.125 becomes 0125. */
  predicate UnknownDigits(v: Vocabulary, token: string)
  {
    AllDigits(Clean(token)) && Zfill3(Clean(token)) !in v.byId
  }

  lemma KnownAt(v: Vocabulary, names: seq<string>, i: nat)
    requires AllKnown(v, names) && i < |names|
    ensures names[i] in v.byName
  {
  }

  lemma EndKnown(v: Vocabulary)
    requires ReservedWords(v)
    ensures END_WORD in v.byName
  {
  }

  /** The symbolic form keeps the confidence, even where the number makes the text look numeric. */
  lemma SymbolicFormKeepsConfidence(v: Vocabulary, f: Floats, text: seq<string>, requireEnd: bool)
    requires WellFormed(v) && ReservedWords(v) && Readable(v, f)
    ensures var p := ParseRest(v, f, text, NOTHING);
            Printable(p) && p.confidence.Some?
            && (HasThreeDigitWord(f.show(p.confidence.value)) ==> UnknownDigits(v, f.show(p.confidence.value))) ==>
              && EncodeTokens(v, f, p).Ok?
              && Decode(v, f, EncodeTokens(v, f, p).value, requireEnd) == p.(end := true, errors := [])
  {
    hide WellFormed, ReservedWords, Readable, ReadsBack, Reachable, ParseRest, EncodeTokens, HasThreeDigitWord,
      UnknownDigits;
    var p := ParseRest(v, f, text, NOTHING);
    NothingIsReachable(v);
    ParseIsReachable(v, f, text, NOTHING);
    ParsedReadsBack(v, f, text, NOTHING);
    if Printable(p) && p.confidence.Some?
       && (HasThreeDigitWord(f.show(p.confidence.value)) ==> UnknownDigits(v, f.show(p.confidence.value))) {
      PrintableRoundTrips(v, f, p);
      EncodeEndsWithEnd(v, f, p);
      var tokens := EncodeTokens(v, f, p).value;
      forall i | 0 <= i < |tokens| && HasThreeDigitWord(tokens[i])
        ensures Translate(v, tokens) == None
      {
        SymbolicText(v, f, p, i);
        TokenStops(v, tokens, i);
      }
    }
  }

  // ---- Exactly when the wire forms agree ----

  /** How a number in [0, 1] is printed without an exponent: one digit, a point, more digits. */
  predicate Plain(s: string)
  {
    |s| >= 3 && s[1] == '.' && forall i :: 0 <= i < |s| && i != 1 ==> IsDigit(s[i])
  }

  lemma {:induction false} WithoutOther(s: string, c: char)
    requires c !in s
    ensures Without(s, c) == s
  {
    if s != "" {
      WithoutOther(s[1..], c);
    }
  }

  /** Dropping the point of a plain number leaves its digits, for the encoder and for the parser. */
  lemma PlainDigits(s: string)
    requires Plain(s)
    ensures Without(s, '.') == Clean(s) == [s[0]] + s[2..]
    ensures forall i :: 0 <= i < |Clean(s)| ==> IsDigit(Clean(s)[i])
  {
    var rest := s[2..];
    assert s[1..][1..] == rest && s[1..] == ['.'] + rest;
    assert '.' !in rest;
    WithoutOther(rest, '.');
    CleanDigits(rest);
    assert Clean(s[1..]) == Clean(rest);
    assert Without(s[1..], '.') == rest;
  }

  lemma PlainIsNumberLike(s: string)
    requires Plain(s)
    ensures NumberLike(s)
  {
    PlainDigits(s);
    WithoutOther(Clean(s), '-');
  }

  /** A fraction of three digits looks like an id, but with the digit before the point it is none. */
  lemma PlainIsNoId(v: Vocabulary, s: string)
    requires WellFormed(v) && Plain(s) && HasThreeDigitWord(s)
    ensures UnknownDigits(v, s)
  {
    PlainDigits(s);
    var i :| 0 <= i && i + 3 <= |s| && ThreeDigitsAt(s, i);
    assert i >= 2 && |Clean(s)| >= 4;
    assert !IdChars(Zfill3(Clean(s)));
  }

  /**
   Over every text whose parse result is on the round-trip domain, with any confidence printed without
   an exponent: both printers succeed, and the two wire forms decode to the same state exactly when
   there is no confidence.
   */
  lemma WireFormsAgreeExactly(v: Vocabulary, f: Floats, text: seq<string>, requireEnd: bool)
    requires WellFormed(v) && ReservedWords(v) && Readable(v, f)
    ensures var p := ParseRest(v, f, text, NOTHING);
            Printable(p) && (p.confidence.Some? ==> Plain(f.show(p.confidence.value))) ==>
              && EncodeTokens(v, f, p).Ok? && EncodeIds(v, f, p).Ok?
              && var (symbolic, numeric) := (EncodeTokens(v, f, p).value, EncodeIds(v, f, p).value);
              (Decode(v, f, symbolic, requireEnd) == Decode(v, f, numeric, requireEnd) <==> p.confidence == None)
  {
    hide WellFormed, ReservedWords, Readable, ParseRest, EncodeTokens, EncodeIds, Decode, NumberLike,
      HasThreeDigitWord, UnknownDigits, Plain;
    var p := ParseRest(v, f, text, NOTHING);
    WireFormsAgree(v, f, text, requireEnd);
    if Printable(p) && p.confidence.Some? && Plain(f.show(p.confidence.value)) {
      var number := f.show(p.confidence.value);
      PlainIsNumberLike(number);
      if HasThreeDigitWord(number) {
        PlainIsNoId(v, number);
      }
      NumericFormLosesConfidence(v, f, text, requireEnd);
      SymbolicFormKeepsConfidence(v, f, text, requireEnd);
    }
  }

  /** The two forms of READ CONFIDENCE 0.9 decode differently. */
  lemma WireFormsDiffer(v: Vocabulary, f: Floats)
    requires WellFormed(v) && ReservedWords(v) && Readable(v, f)
    requires "READ" in v.byName && IsAction(v.byName["READ"])
    requires CONFIDENCE_WORD in v.byName && !IsAction(v.byName[CONFIDENCE_WORD])
    requires f.read("0.9") == Some(0.9) && f.show(0.9) == "0.9"
    ensures var p := ParseRest(v, f, ["READ", CONFIDENCE_WORD, "0.9"], NOTHING);
            && p == NOTHING.(actions := ["READ"], confidence := Some(0.9))
            && EncodeTokens(v, f, p).Ok? && EncodeIds(v, f, p).Ok?
            && Decode(v, f, EncodeTokens(v, f, p).value, false) != Decode(v, f, EncodeIds(v, f, p).value, false)
  {
    hide Resolve, WellFormed, ReservedWords, Readable, Step, IsAction, CONFIDENCE_WORD, EncodeTokens, EncodeIds,
      Decode, Clamp, NumberOf;
    var text := ["READ", CONFIDENCE_WORD, "0.9"];
    var next := NOTHING.(actions := ["READ"]);
    assert [] + ["READ"] == ["READ"];
    ReadStep(v, f, text, NOTHING);
    assert text[1..] == [CONFIDENCE_WORD, "0.9"] && text[1..][2..] == [];
    ConfidenceStep(v, f, text[1..], next, 0.9);
    var last := next.(confidence := Some(0.9));
    assert ParseRest(v, f, text, NOTHING) == ParseRest(v, f, text[1..], next);
    assert ParseRest(v, f, text[1..], next) == ParseRest(v, f, text[1..][2..], last) == last;
    WireFormsAgreeExactly(v, f, text, false);
  }

  lemma ConfidenceStep(v: Vocabulary, f: Floats, tokens: seq<string>, p: Parsed, c: real)
    requires WellFormed(v) && |tokens| > 1 && tokens[0] == CONFIDENCE_WORD
    requires f.read(tokens[1]) == Some(c) && 0.0 <= c <= 1.0
    requires CONFIDENCE_WORD in v.byName && !IsAction(v.byName[CONFIDENCE_WORD])
    ensures Step(v, f, tokens, p) == (p.(confidence := Some(c)), 2)
  {
    hide Resolve, WellFormed, IsAction, IsObject, IsState, IsMeta, IsTargetState, IsStateWord, IsPriority, IsTruth,
      END_WORD, STATE_WORD, TARGET_WORD, CONFIDENCE_WORD;
    Keywords();
    NameResolves(v, CONFIDENCE_WORD);
  }

  // ---- Printing canonical states that no parser produced ----

  lemma {:induction false} UpperMeans(s: string)
    ensures |Upper(s)| == |s|
    ensures forall i :: 0 <= i < |s| ==> Upper(s)[i] == if 'a' <= s[i] <= 'z' then s[i] - 'a' + 'A' else s[i]
  {
    if s != "" {
      UpperMeans(s[1..]);
    }
  }

  /** When encode_symbolic raises. */
  lemma EncodeFails(v: Vocabulary, f: Floats, p: Parsed, includeEnd: bool)
    ensures EncodeWith(v, f, p, includeEnd).ValueError? <==>
            || p.actions == [] || (exists i :: 0 <= i < |p.actions| && Upper(p.actions[i]) !in v.byName)
            || (p.object_.Some? && p.object_.value != "" && Upper(p.object_.value) !in v.byName)
  {
    hide Upper;
    var actions := UpperAll(p.actions);
    if i :| 0 <= i < |p.actions| && Upper(p.actions[i]) !in v.byName {
      assert actions[i] in actions;
    }
    if a :| a in actions && a !in v.byName {
      var i :| 0 <= i < |actions| && actions[i] == a;
      assert Upper(p.actions[i]) !in v.byName;
    }
  }

  /** The terminator is the only difference that the switch makes. */
  lemma EndIsAppended(v: Vocabulary, f: Floats, p: Parsed)
    ensures EncodeWith(v, f, p, true).Ok? <==> EncodeWith(v, f, p, false).Ok?
    ensures EncodeWith(v, f, p, true).Ok? ==>
              EncodeWith(v, f, p, true).value == EncodeWith(v, f, p, false).value + ["END"]
  {
    hide Upper;
  }

  /** Unknown optional fields are skipped without an error; an unknown object is not. */
  lemma UnknownFieldsAreSkipped(v: Vocabulary, f: Floats, p: Parsed, includeEnd: bool)
    ensures p.target.Some? && Upper(p.target.value) !in v.byName ==>
              EncodeWith(v, f, p, includeEnd) == EncodeWith(v, f, p.(target := None), includeEnd)
    ensures p.state.Some? && Upper(p.state.value) !in v.byName ==>
              EncodeWith(v, f, p, includeEnd) == EncodeWith(v, f, p.(state := None), includeEnd)
    ensures p.priority.Some? && Upper(p.priority.value) !in v.byName ==>
              EncodeWith(v, f, p, includeEnd) == EncodeWith(v, f, p.(priority := None), includeEnd)
    ensures p.destination.Some? && Upper(p.destination.value) !in v.byName ==>
              EncodeWith(v, f, p, includeEnd) == EncodeWith(v, f, p.(destination := None), includeEnd)
  {
    hide Upper;
  }

  lemma PrintedIs(v: Vocabulary, x: string)
    requires Upper(x) in v.byName && "" !in v.byName
    ensures Printed(v, Some(x)) == [Upper(x)] && Given(Some(x))
  {
    UpperMeans(x);
  }

  /** Known fields are printed in this order, in upper case. */
  lemma KnownFieldsArePrinted(v: Vocabulary, f: Floats, p: Parsed)
    requires |p.actions| == 1 && Upper(p.actions[0]) in v.byName && "" !in v.byName && p.confidence == None
    requires p.object_.Some? && p.target.Some? && p.state.Some? && p.priority.Some? && p.destination.Some?
    requires Upper(p.object_.value) in v.byName && Upper(p.target.value) in v.byName && Upper(p.state.value) in v.byName
    requires Upper(p.priority.value) in v.byName && Upper(p.destination.value) in v.byName
    ensures EncodeWith(v, f, p, false) ==
            Ok([Upper(p.actions[0]), Upper(p.object_.value), Upper(p.target.value), Upper(p.state.value),
                Upper(p.priority.value), Upper(p.destination.value)])
  {
    hide Upper, Printed;
    PrintedIs(v, p.object_.value);
    PrintedIs(v, p.target.value);
    PrintedIs(v, p.state.value);
    PrintedIs(v, p.priority.value);
    PrintedIs(v, p.destination.value);
    assert UpperAll(p.actions) == [Upper(p.actions[0])];
    assert forall a :: a in UpperAll(p.actions) ==> a == Upper(p.actions[0]);
    assert p.object_ == Some(p.object_.value) && p.target == Some(p.target.value) && p.state == Some(p.state.value);
    assert p.priority == Some(p.priority.value) && p.destination == Some(p.destination.value);
    assert EncodeWith(v, f, p, false).value ==
           [Upper(p.actions[0]), Upper(p.object_.value), Upper(p.target.value), Upper(p.state.value),
            Upper(p.priority.value), Upper(p.destination.value)];
  }

  // ---- Translating and dispatching texts that no printer produced ----

  /** A numeric text is translated exactly if all its numbers are ids; other tokens keep their cleaned form. */
  lemma {:induction false} TranslateMeans(v: Vocabulary, tokens: seq<string>)
    requires forall i :: 0 <= i < |tokens| ==> Clean(tokens[i]) != ""
    ensures Translate(v, tokens).Some? <==>
            forall i :: 0 <= i < |tokens| && AllDigits(Clean(tokens[i])) ==> Zfill3(Clean(tokens[i])) in v.byId
    ensures Translate(v, tokens).Some? ==>
              && |Translate(v, tokens).value| == |tokens|
              && forall i :: 0 <= i < |tokens| ==>
                               Translate(v, tokens).value[i] ==
                               if AllDigits(Clean(tokens[i])) then v.byId[Zfill3(Clean(tokens[i]))].name
                               else Clean(tokens[i])
    decreases |tokens|
  {
    hide Clean, AllDigits, Zfill3;
    if tokens != [] {
      var front := tokens[..|tokens| - 1];
      TranslateMeans(v, front);
      assert forall i :: 0 <= i < |front| ==> front[i] == tokens[i];
    }
  }

  /** Tokens without a letter, digit or hyphen are skipped. */
  lemma BlankIsSkipped(v: Vocabulary, tokens: seq<string>, blank: string)
    requires Clean(blank) == ""
    ensures Translate(v, tokens + [blank]) == Translate(v, tokens)
  {
    assert (tokens + [blank])[..|tokens|] == tokens;
  }

  /** A token of word characters counts as an id exactly if it is three digits. */
  lemma ThreeDigitWords(s: string)
    requires forall i :: 0 <= i < |s| ==> IsUpper(s[i]) || IsLower(s[i]) || IsDigit(s[i]) || s[i] == '_'
    ensures HasThreeDigitWord(s) <==> |s| == 3 && IsDigit(s[0]) && IsDigit(s[1]) && IsDigit(s[2])
  {
    if |s| == 3 && IsDigit(s[0]) && IsDigit(s[1]) && IsDigit(s[2]) {
      assert ThreeDigitsAt(s, 0);
    }
  }
}
