/** The vocabulary, its two parsers and its two printers, as functions on token lists. */
module Vocab {
  import opened Wrappers

  // ---- Vocabulary ----

  datatype Entry = Entry(id: string, name: string, primaryClass: string, secondaryClass: Option<string>)

  datatype Vocabulary = Vocabulary(byName: map<string, Entry>, byId: map<string, Entry>)

  const TARGET_STATE_TOKENS: set<string> := {"ERROR", "WARNING", "FOUND", "MISSING", "INVALID", "VALID", "RESULT",
                                             "SAFE", "UNSAFE", "UNKNOWN", "FAILED", "DONE"}

  const STATE_TOKENS: set<string> := {"READY", "ACTIVE", "IDLE", "BUSY", "DONE", "FAILED", "ERROR", "WARNING",
                                      "FOUND", "MISSING", "VALID", "INVALID", "UNKNOWN"}

  const PRIORITY_TOKENS: set<string> := {"HIGH", "MEDIUM", "LOW", "URGENT"}

  predicate IsTargetState(name: string)
  {
    name in TARGET_STATE_TOKENS
  }

  predicate IsStateWord(name: string)
  {
    name in STATE_TOKENS
  }

  predicate IsPriority(name: string)
  {
    name in PRIORITY_TOKENS
  }

  predicate IsTruth(name: string)
  {
    name == "TRUE" || name == "FALSE"
  }

  const END_WORD: string := "END"
  const STATE_WORD: string := "STATE"
  const TARGET_WORD: string := "TARGET"
  const CONFIDENCE_WORD: string := "CONFIDENCE"
  const CONFIDENCE_ID: string := "095"

  predicate IsAction(e: Entry)
  {
    e.primaryClass == "ACTION" || e.primaryClass == "CONTROL" || e.secondaryClass == Some("ACTION")
  }

  predicate IsObject(e: Entry)
  {
    e.primaryClass == "OBJECT" || e.secondaryClass == Some("OBJECT")
  }

  predicate IsState(e: Entry)
  {
    e.primaryClass == "STATE" || e.secondaryClass == Some("STATE")
  }

  predicate IsMeta(e: Entry)
  {
    e.primaryClass == "META"
  }

  // ---- Tokens (ASCII) ----

  predicate IsDigit(c: char) { '0' <= c <= '9' }

  predicate IsUpper(c: char) { 'A' <= c <= 'Z' }

  predicate IsLower(c: char) { 'a' <= c <= 'z' }

  function UpperChar(c: char): char
  {
    if IsLower(c) then c - 'a' + 'A' else c
  }

  /** _clean_token: upper case, underscores as hyphens, and only letters, digits and hyphens kept. */
  function Clean(raw: string): string
  {
    if raw == "" then ""
    else
      var c := UpperChar(raw[0]);
      var d := if c == '_' then '-' else c;
      (if IsUpper(d) || IsDigit(d) || d == '-' then [d] else "") + Clean(raw[1..])
  }

  /** str.isdigit, on ASCII. */
  predicate AllDigits(s: string)
  {
    s != "" && forall i :: 0 <= i < |s| ==> IsDigit(s[i])
  }

  /** str.zfill(3). */
  function Zfill3(s: string): string
  {
    if |s| == 0 then "000" else if |s| == 1 then "00" + s else if |s| == 2 then "0" + s else s
  }

  function DigitValue(c: char): nat
    requires IsDigit(c)
  {
    (c - '0') as int
  }

  function IntOf(s: string): nat
    requires forall i :: 0 <= i < |s| ==> IsDigit(s[i])
  {
    if s == "" then 0 else 10 * IntOf(s[..|s| - 1]) + DigitValue(s[|s| - 1])
  }

  /** _normalize_numeric_token. */
  function NormalizeNumeric(s: string): Option<string>
  {
    if AllDigits(s) && 1 <= IntOf(s) <= 999 then Some(Zfill3(s)) else None
  }

  /** What a token stands for. */
  datatype Resolved = Resolved(name: Option<string>, entry: Option<Entry>, numeric: bool)

  /** _resolve_token. */
  function Resolve(v: Vocabulary, token: string): Resolved
  {
    var normalized := Clean(token);
    if normalized == "" then Resolved(None, None, true)
    else
      var numeric := NormalizeNumeric(normalized);
      if numeric.Some? && numeric.value in v.byId then
        Resolved(Some(v.byId[numeric.value].name), Some(v.byId[numeric.value]), true)
      else if normalized in v.byName then Resolved(Some(normalized), Some(v.byName[normalized]), false)
      else Resolved(Some(normalized), None, numeric.Some?)
  }

  // ---- Numbers ----

  /** float(raw) where it gives a finite number, and str of a number. */
  datatype Floats = Floats(read: string -> Option<real>, show: real -> string)

  /** The number a CONFIDENCE token finds in the next token. */
  function NumberOf(f: Floats, raw: string): Option<real>
  {
    match f.read(raw)
    case Some(x) => Some(x)
    case None => if AllDigits(Clean(raw)) then Some(IntOf(Clean(raw)) as real) else None
  }

  function Clamp(x: real): (c: real)
    ensures 0.0 <= c <= 1.0
    ensures 0.0 <= x <= 1.0 ==> c == x
    ensures 1.0 < x <= 100.0 ==> 100.0 * c == x
    ensures x > 100.0 ==> c == 1.0
    ensures x < 0.0 ==> c == 0.0
  {
    var y := if x > 1.0 then x / 100.0 else x;
    if y > 1.0 then 1.0 else if y < 0.0 then 0.0 else y
  }

  // ---- The canonical state ----

  datatype ParseError = ParseError(code: string, value: string)

  datatype Parsed = Parsed(actions: seq<string>, object_: Option<string>, target: Option<string>, state: Option<string>,
                           priority: Option<string>, confidence: Option<real>, destination: Option<string>,
                           end: bool, errors: seq<ParseError>)

  const NOTHING := Parsed([], None, None, None, None, None, None, false, [])

  /** The branches of parse_symbolic that a resolved token can take. */
  datatype Branch = BEnd | BObjectState | BTarget | BAction | BPriority | BConfidence | BObject | BState | BBool | BNone

  function BranchOf(name: string, e: Entry, objectSet: bool, more: bool): Branch
  {
    if name == END_WORD then BEnd
    else if name == STATE_WORD && !objectSet then BObjectState
    else if name == TARGET_WORD && more then BTarget
    else if IsAction(e) then BAction
    else if IsPriority(name) then BPriority
    else if name == CONFIDENCE_WORD then BConfidence
    else if IsObject(e) then BObject
    else if IsState(e) || IsStateWord(name) || IsTargetState(name) then BState
    else if IsMeta(e) && IsTruth(name) then BBool
    else BNone
  }

  /** One pass of the token loop: the new state and the number of tokens consumed. */
  function Step(v: Vocabulary, f: Floats, tokens: seq<string>, p: Parsed): (r: (Parsed, nat))
    requires tokens != []
    ensures 1 <= r.1 <= |tokens|
  {
    var raw := tokens[0];
    var resolved := Resolve(v, raw);
    if resolved.entry.None? || resolved.name.None? then
      (p.(errors := p.errors + [ParseError("UNKNOWN_OPCODE", raw)]), 1)
    else
      var name := resolved.name.value;
      match BranchOf(name, resolved.entry.value, p.object_.Some?, |tokens| > 1)
      case BEnd => (p.(end := true), 1)
      case BObjectState => (p.(object_ := Some(name)), 1)
      case BTarget =>
        var next := Resolve(v, tokens[1]);
        (if next.entry.Some? && next.name.Some? then p.(target := next.name) else p, 2)
      case BAction => (p.(actions := p.actions + [name]), 1)
      case BPriority => (p.(priority := Some(name)), 1)
      case BConfidence =>
        var number := if |tokens| > 1 then NumberOf(f, tokens[1]) else None;
        if number.Some? then (p.(confidence := Some(Clamp(number.value))), 2) else (p.(confidence := None), 1)
      case BObject =>
        (if p.object_.None? then p.(object_ := Some(name))
         else if p.destination.None? then p.(destination := Some(name))
         else p, 1)
      case BState =>
        (if IsTargetState(name) && p.target.None? then p.(target := Some(name))
         else if p.state.None? then p.(state := Some(name))
         else p, 1)
      case BBool => (if p.state.None? then p.(state := Some(name)) else p, 1)
      case BNone =>
        (if resolved.numeric then p.(errors := p.errors + [ParseError("UNMAPPED_NUMERIC", raw)]) else p, 1)
  }

  /** The token loop of parse_symbolic. */
  function ParseRest(v: Vocabulary, f: Floats, tokens: seq<string>, p: Parsed): Parsed
    decreases |tokens|
  {
    if tokens == [] then p
    else
      var (next, used) := Step(v, f, tokens, p);
      ParseRest(v, f, tokens[used..], next)
  }

  function WithEndCheck(p: Parsed, requireEnd: bool): Parsed
  {
    if requireEnd && !p.end then p.(errors := p.errors + [ParseError("END_MISSING", "END")]) else p
  }

  /** parse_symbolic on tokens. */
  function Symbolic(v: Vocabulary, f: Floats, tokens: seq<string>, requireEnd: bool): Parsed
  {
    WithEndCheck(ParseRest(v, f, tokens, NOTHING), requireEnd)
  }

  /** The translation loop of parse_numeric; None when an id is unknown. */
  function Translate(v: Vocabulary, tokens: seq<string>): Option<seq<string>>
  {
    if tokens == [] then Some([])
    else
      match Translate(v, tokens[..|tokens| - 1])
      case None => None
      case Some(done) =>
        var normalized := Clean(tokens[|tokens| - 1]);
        if normalized == "" then Some(done)
        else if AllDigits(normalized) then
          if Zfill3(normalized) in v.byId then Some(done + [v.byId[Zfill3(normalized)].name]) else None
        else Some(done + [normalized])
  }

  /** parse_numeric on tokens. */
  function Numeric(v: Vocabulary, f: Floats, tokens: seq<string>, requireEnd: bool): Parsed
  {
    match Translate(v, tokens)
    case Some(names) => Symbolic(v, f, names, requireEnd)
    case None => Symbolic(v, f, tokens, requireEnd)
  }

  // ---- Printers ----

  /** str.upper, on ASCII. */
  function Upper(s: string): string
  {
    if s == "" then "" else [UpperChar(s[0])] + Upper(s[1..])
  }

  function UpperAll(names: seq<string>): (r: seq<string>)
    ensures |r| == |names|
  {
    seq(|names|, i requires 0 <= i < |names| => Upper(names[i]))
  }

  /** A field that is neither None nor the empty string. */
  predicate Given(field: Option<string>)
  {
    field.Some? && field.value != ""
  }

  /** An optional field: printed in upper case if the vocabulary knows it. */
  function Printed(v: Vocabulary, field: Option<string>): seq<string>
  {
    if Given(field) && Upper(field.value) in v.byName then [Upper(field.value)] else []
  }

  function ConfidenceTokens(f: Floats, confidence: Option<real>): seq<string>
  {
    if confidence.Some? then [CONFIDENCE_WORD, f.show(confidence.value)] else []
  }

  /** encode_symbolic, as tokens. */
  function EncodeWith(v: Vocabulary, f: Floats, p: Parsed, includeEnd: bool): Result<seq<string>>
  {
    var actions := UpperAll(p.actions);
    if actions == [] || (exists a :: a in actions && a !in v.byName) then ValueError
    else if Given(p.object_) && Upper(p.object_.value) !in v.byName then ValueError
    else
      Ok(actions + Printed(v, p.object_) + Printed(v, p.target) + Printed(v, p.state) + Printed(v, p.priority)
         + Printed(v, p.destination) + ConfidenceTokens(f, p.confidence) + (if includeEnd then [END_WORD] else []))
  }

  /** encode_symbolic with its default terminator. */
  function EncodeTokens(v: Vocabulary, f: Floats, p: Parsed): Result<seq<string>>
  {
    EncodeWith(v, f, p, true)
  }

  /** Whether a symbolic token is dropped by encode_numeric as a number. */
  predicate NumberLike(token: string)
  {
    AllDigits(Without(Without(token, '.'), '-'))
  }

  function Without(s: string, c: char): string
  {
    if s == "" then "" else (if s[0] == c then "" else [s[0]]) + Without(s[1..], c)
  }

  /** The loop of encode_numeric. */
  function ToIds(v: Vocabulary, tokens: seq<string>): Result<seq<string>>
  {
    if tokens == [] then Ok([])
    else
      match ToIds(v, tokens[..|tokens| - 1])
      case ValueError => ValueError
      case Ok(ids) =>
        var token := tokens[|tokens| - 1];
        if token == CONFIDENCE_WORD then Ok(ids + [CONFIDENCE_ID])
        else if NumberLike(token) then Ok(ids)
        else if Resolve(v, token).entry.None? then ValueError
        else Ok(ids + [Resolve(v, token).entry.value.id])
  }

  /** What encode_numeric makes of the symbolic outcome. */
  function Numbered(v: Vocabulary, symbolic: Result<seq<string>>): Result<seq<string>>
  {
    match symbolic
    case ValueError => ValueError
    case Ok(tokens) => ToIds(v, tokens)
  }

  /** encode_numeric with its default terminator, as tokens. */
  function EncodeIds(v: Vocabulary, f: Floats, p: Parsed): Result<seq<string>>
  {
    Numbered(v, EncodeTokens(v, f, p))
  }

  // ---- Dispatch ----

  predicate IsWordChar(c: char)
  {
    IsUpper(c) || IsLower(c) || IsDigit(c) || c == '_'
  }

  /** The pattern \b\d{3}\b somewhere in a token. */
  predicate HasThreeDigitWord(s: string)
  {
    exists i :: 0 <= i && i + 3 <= |s| && ThreeDigitsAt(s, i)
  }

  predicate ThreeDigitsAt(s: string, i: int)
    requires 0 <= i && i + 3 <= |s|
  {
    && IsDigit(s[i]) && IsDigit(s[i + 1]) && IsDigit(s[i + 2])
    && (i == 0 || !IsWordChar(s[i - 1])) && (i + 3 == |s| || !IsWordChar(s[i + 3]))
  }

  /** decode_to_canonical on tokens. */
  function Decode(v: Vocabulary, f: Floats, tokens: seq<string>, requireEnd: bool): Parsed
  {
    if tokens == [] then NOTHING.(errors := [ParseError("EMPTY_PAYLOAD", "")])
    else if exists i :: 0 <= i < |tokens| && HasThreeDigitWord(tokens[i]) then Numeric(v, f, tokens, requireEnd)
    else Symbolic(v, f, tokens, requireEnd)
  }

  // ---- What the shipped vocabulary satisfies ----

  predicate NameChars(s: string)
  {
    s != "" && forall i :: 0 <= i < |s| ==> IsUpper(s[i]) || s[i] == '-'
  }

  predicate IdChars(s: string)
  {
    |s| == 3 && IsDigit(s[0]) && IsDigit(s[1]) && IsDigit(s[2]) && s != "000"
  }

  /** Names are upper case words, ids three digits, and both tables hold the same entries. */
  ghost predicate WellFormed(v: Vocabulary)
  {
    && (forall k :: k in v.byName ==> NameChars(k) && v.byName[k].name == k
                                      && v.byName[k].id in v.byId && v.byId[v.byName[k].id] == v.byName[k])
    && (forall x :: x in v.byId ==> IdChars(x) && v.byId[x].id == x
                                    && v.byId[x].name in v.byName && v.byName[v.byId[x].name] == v.byId[x])
  }

  /** The classes the reserved words have in the shipped vocabulary. */
  ghost predicate ReservedWords(v: Vocabulary)
  {
    && END_WORD in v.byName
    && (STATE_WORD in v.byName ==> !IsAction(v.byName[STATE_WORD]))
    && (TARGET_WORD in v.byName ==> !IsAction(v.byName[TARGET_WORD]) && IsObject(v.byName[TARGET_WORD]))
    && (CONFIDENCE_WORD in v.byName ==> v.byName[CONFIDENCE_WORD].id == CONFIDENCE_ID)
    && (forall t :: t in v.byName && IsTargetState(t) ==> !IsAction(v.byName[t]) && !IsObject(v.byName[t]))
  }

  /** The printed form of a confidence reads as that confidence. */
  ghost predicate ReadsBack(f: Floats, confidence: Option<real>)
  {
    confidence.Some? ==> f.read(f.show(confidence.value)) == confidence
  }

  /** Confidences taken from a text read back when printed, and no vocabulary name reads as a number. */
  ghost predicate Readable(v: Vocabulary, f: Floats)
  {
    && (forall raw :: NumberOf(f, raw).Some? ==> ReadsBack(f, Some(Clamp(NumberOf(f, raw).value))))
    && (forall k :: k in v.byName ==> f.read(k) == None)
  }
}
