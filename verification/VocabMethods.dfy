/** parse_symbolic, parse_numeric and both encoders with the loops of the source. */
module VocabMethods {
  import opened Wrappers
  import opened Vocab
  import opened WireForms

  /** parser.parse_symbolic: the index loop, updating one record. */
  method ParseSymbolic(v: Vocabulary, f: Floats, tokens: seq<string>, requireEnd: bool) returns (p: Parsed)
    ensures p == Symbolic(v, f, tokens, requireEnd)
  {
    hide Resolve, NumberOf, Clamp, IsAction, IsObject, IsState, IsMeta, IsTargetState, IsStateWord, IsPriority,
      IsTruth, END_WORD, STATE_WORD, TARGET_WORD, CONFIDENCE_WORD;
    p := NOTHING;
    var i := 0;
    assert tokens[0..] == tokens;
    while i < |tokens|
      invariant 0 <= i <= |tokens|
      invariant ParseRest(v, f, tokens[i..], p) == ParseRest(v, f, tokens, NOTHING)
    {
      var used;
      p, used := ParseToken(v, f, tokens, i, p);
      assert tokens[i..][used..] == tokens[i + used..];
      i := i + used;
    }
    if requireEnd && !p.end {
      p := p.(errors := p.errors + [ParseError("END_MISSING", "END")]);
    }
  }

  /** The body of the token loop, branch by branch. */
  method ParseToken(v: Vocabulary, f: Floats, tokens: seq<string>, i: nat, p: Parsed) returns (q: Parsed, used: nat)
    requires i < |tokens|
    ensures (q, used) == Step(v, f, tokens[i..], p)
  {
    hide Resolve, NumberOf, IsAction, IsObject, IsState, IsMeta, IsStateWord, IsTargetState, IsPriority, IsTruth,
      END_WORD, STATE_WORD, TARGET_WORD, CONFIDENCE_WORD;
    q, used := p, 1;
    var raw := tokens[i];
    assert tokens[i..][0] == raw;
    if i + 1 < |tokens| {
      assert tokens[i..][1] == tokens[i + 1];
    }
    var resolved := Resolve(v, raw);
    if resolved.entry.None? || resolved.name.None? {
      q := q.(errors := q.errors + [ParseError("UNKNOWN_OPCODE", raw)]);
      return;
    }
    var name := resolved.name.value;
    var entry := resolved.entry.value;
    if name == END_WORD {
      q := q.(end := true);
    } else if name == STATE_WORD && q.object_.None? {
      q := q.(object_ := Some(name));
    } else if name == TARGET_WORD && i + 1 < |tokens| {
      var next := Resolve(v, tokens[i + 1]);
      if next.entry.Some? && next.name.Some? {
        q := q.(target := next.name);
      }
      used := 2;
    } else if IsAction(entry) {
      q := q.(actions := q.actions + [name]);
    } else if IsPriority(name) {
      q := q.(priority := Some(name));
    } else if name == CONFIDENCE_WORD {
      q := q.(confidence := None);
      if i + 1 < |tokens| {
        var number := NumberOf(f, tokens[i + 1]);
        if number.Some? {
          q := q.(confidence := Some(Clamp(number.value)));
          used := 2;
        }
      }
    } else if IsObject(entry) {
      if q.object_.None? {
        q := q.(object_ := Some(name));
      } else if q.destination.None? {
        q := q.(destination := Some(name));
      }
    } else if IsState(entry) || IsStateWord(name) || IsTargetState(name) {
      if IsTargetState(name) && q.target.None? {
        q := q.(target := Some(name));
      } else if q.state.None? {
        q := q.(state := Some(name));
      }
    } else if IsMeta(entry) && IsTruth(name) {
      if q.state.None? {
        q := q.(state := Some(name));
      }
    } else if resolved.numeric {
      q := q.(errors := q.errors + [ParseError("UNMAPPED_NUMERIC", raw)]);
    }
  }

  /** parser.parse_numeric: translate ids until one is unknown, then hand over. */
  method ParseNumeric(v: Vocabulary, f: Floats, tokens: seq<string>, requireEnd: bool) returns (p: Parsed)
    ensures p == Numeric(v, f, tokens, requireEnd)
  {
    hide Clean, AllDigits, Zfill3, Symbolic;
    var symbolic: seq<string> := [];
    var seenError := false;
    var i := 0;
    while i < |tokens| && !seenError
      invariant 0 <= i <= |tokens|
      invariant seenError ==> Translate(v, tokens[..i]) == None
      invariant !seenError ==> Translate(v, tokens[..i]) == Some(symbolic)
      decreases |tokens| - i
    {
      assert tokens[..i + 1][..i] == tokens[..i];
      var normalized := Clean(tokens[i]);
      if normalized != "" {
        if AllDigits(normalized) {
          var tokenId := Zfill3(normalized);
          if tokenId in v.byId {
            symbolic := symbolic + [v.byId[tokenId].name];
          } else {
            seenError := true;
          }
        } else {
          symbolic := symbolic + [normalized];
        }
      }
      i := i + 1;
    }
    if seenError {
      TranslateStops(v, tokens, i);
      p := ParseSymbolic(v, f, tokens, requireEnd);
    } else {
      assert tokens[..i] == tokens;
      p := ParseSymbolic(v, f, symbolic, requireEnd);
    }
  }

  /** decoder.decode_to_canonical. */
  method DecodeToCanonical(v: Vocabulary, f: Floats, tokens: seq<string>, requireEnd: bool) returns (p: Parsed)
    ensures p == Decode(v, f, tokens, requireEnd)
    ensures tokens == [] ==>
              p == Parsed([], None, None, None, None, None, None, false, [ParseError("EMPTY_PAYLOAD", "")])
  {
    hide Symbolic, Numeric, HasThreeDigitWord;
    if tokens == [] {
      return NOTHING.(errors := [ParseError("EMPTY_PAYLOAD", "")]);
    }
    var found := false;
    var i := 0;
    while i < |tokens| && !found
      invariant 0 <= i <= |tokens|
      invariant found <==> exists j :: 0 <= j < i && HasThreeDigitWord(tokens[j])
      decreases |tokens| - i
    {
      found := HasThreeDigitWord(tokens[i]);
      i := i + 1;
    }
    if found {
      p := ParseNumeric(v, f, tokens, requireEnd);
    } else {
      p := ParseSymbolic(v, f, tokens, requireEnd);
    }
  }

  /** encoder.encode_symbolic. */
  method EncodeSymbolic(v: Vocabulary, f: Floats, p: Parsed, includeEnd: bool) returns (r: Result<seq<string>>)
    ensures r == EncodeWith(v, f, p, includeEnd)
    ensures r.ValueError? <==>
            || p.actions == [] || (exists i :: 0 <= i < |p.actions| && Upper(p.actions[i]) !in v.byName)
            || (p.object_.Some? && p.object_.value != "" && Upper(p.object_.value) !in v.byName)
  {
    hide END_WORD, CONFIDENCE_WORD, Upper;
    EncodeFails(v, f, p, includeEnd);
    var actions := UpperAll(p.actions);
    if actions == [] {
      return ValueError;
    }
    var tokens: seq<string> := [];
    var i := 0;
    while i < |actions|
      invariant 0 <= i <= |actions| && tokens == actions[..i]
      invariant forall j :: 0 <= j < i ==> actions[j] in v.byName
    {
      if actions[i] !in v.byName {
        assert actions[i] in actions;
        return ValueError;
      }
      tokens := tokens + [actions[i]];
      i := i + 1;
    }
    assert tokens == actions;
    assert forall a :: a in actions ==> a in v.byName;
    if Given(p.object_) && Upper(p.object_.value) !in v.byName {
      return ValueError;
    }
    tokens := tokens + Printed(v, p.object_);
    tokens := tokens + Printed(v, p.target);
    tokens := tokens + Printed(v, p.state);
    tokens := tokens + Printed(v, p.priority);
    tokens := tokens + Printed(v, p.destination);
    ghost var fields := tokens;
    if p.confidence.Some? {
      tokens := tokens + [CONFIDENCE_WORD];
      tokens := tokens + [f.show(p.confidence.value)];
    }
    assert tokens == fields + ConfidenceTokens(f, p.confidence);
    if includeEnd {
      tokens := tokens + [END_WORD];
    }
    assert tokens == fields + ConfidenceTokens(f, p.confidence) + (if includeEnd then [END_WORD] else []);
    r := Ok(tokens);
  }

  lemma {:induction false} ToIdsStops(v: Vocabulary, tokens: seq<string>, i: nat)
    requires i <= |tokens| && ToIds(v, tokens[..i]).ValueError?
    ensures ToIds(v, tokens).ValueError?
    decreases |tokens|
  {
    if i < |tokens| {
      assert tokens[..|tokens| - 1][..i] == tokens[..i];
      ToIdsStops(v, tokens[..|tokens| - 1], i);
    } else {
      assert tokens[..i] == tokens;
    }
  }

  /** encoder.encode_numeric. */
  method EncodeNumeric(v: Vocabulary, f: Floats, p: Parsed, includeEnd: bool) returns (r: Result<seq<string>>)
    ensures r == Numbered(v, EncodeWith(v, f, p, includeEnd))
  {
    hide NumberLike, Resolve, EncodeWith, CONFIDENCE_WORD;
    var symbolic := EncodeSymbolic(v, f, p, includeEnd);
    if symbolic.ValueError? {
      return ValueError;
    }
    var tokens := symbolic.value;
    var ids: seq<string> := [];
    var i := 0;
    while i < |tokens|
      invariant 0 <= i <= |tokens| && ToIds(v, tokens[..i]) == Ok(ids)
    {
      var token := tokens[i];
      assert tokens[..i + 1][..i] == tokens[..i];
      if token == CONFIDENCE_WORD {
        ids := ids + [CONFIDENCE_ID];
      } else if !NumberLike(token) {
        var entry := Resolve(v, token).entry;
        if entry.None? {
          ToIdsStops(v, tokens, i + 1);
          return ValueError;
        }
        ids := ids + [entry.value.id];
      }
      i := i + 1;
    }
    assert tokens[..i] == tokens;
    r := Ok(ids);
  }
}
