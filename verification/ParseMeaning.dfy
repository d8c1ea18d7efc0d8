/** What parse_symbolic makes of a text, field by field, without running the token loop. */
module ParseMeaning {
  import opened Wrappers
  import opened Vocab
  import opened VocabNormalForm

  // ---- Tokens ----

  /** A vocabulary name, or the number of a vocabulary id. */
  predicate KnownToken(v: Vocabulary, token: string)
  {
    var c := Clean(token);
    c in v.byName || (AllDigits(c) && 1 <= IntOf(c) <= 999 && Zfill3(c) in v.byId)
  }

  lemma CleanFirst(a: string)
    ensures Clean("") == ""
    ensures a != "" ==> Clean(a) == Clean([a[0]]) + Clean(a[1..])
  {
    if a != "" {
      assert [a[0]][1..] == "";
    }
  }

  /** Cleaning works character by character. */
  lemma {:induction false} CleanConcat(a: string, b: string)
    ensures Clean(a + b) == Clean(a) + Clean(b)
  {
    hide Clean;
    CleanFirst(a);
    if a == "" {
      assert a + b == b;
    } else {
      assert (a + b)[1..] == a[1..] + b;
      CleanConcat(a[1..], b);
      CleanFirst(a + b);
    }
  }

  lemma CleanChar(c: char)
    ensures Clean([c]) ==
            if 'a' <= c <= 'z' then [c - 'a' + 'A']
            else if 'A' <= c <= 'Z' || '0' <= c <= '9' || c == '-' then [c]
            else if c == '_' then "-" else ""
  {
    assert [c][1..] == "";
  }

  lemma {:induction false} LeadingZero(s: string)
    requires forall i :: 0 <= i < |s| ==> IsDigit(s[i])
    ensures IntOf(['0'] + s) == IntOf(s)
  {
    var t := ['0'] + s;
    if s == "" {
      assert t[..0] == "";
    } else {
      assert t[..|t| - 1] == ['0'] + s[..|s| - 1];
      LeadingZero(s[..|s| - 1]);
    }
  }

  /** Filling with zeros up to three digits keeps the number. */
  lemma Zfill3Means(s: string)
    requires AllDigits(s)
    ensures |Zfill3(s)| >= 3 && AllDigits(Zfill3(s)) && IntOf(Zfill3(s)) == IntOf(s) && (|s| >= 3 ==> Zfill3(s) == s)
  {
    hide IntOf;
    LeadingZero(s);
    if |s| == 1 {
      LeadingZero(['0'] + s);
      assert ['0'] + (['0'] + s) == "00" + s;
    } else if |s| == 2 {
      assert ['0'] + s == "0" + s;
    }
  }

  lemma ResolveMeans(v: Vocabulary, token: string)
    requires WellFormed(v)
    ensures Resolve(v, token).entry.Some? <==> KnownToken(v, token)
    ensures Resolve(v, token).entry.Some? ==> Resolve(v, token).name.Some?
    ensures KnownToken(v, token) && Clean(token) !in v.byName ==>
              var entry := v.byId[Zfill3(Clean(token))];
              Resolve(v, token) == Resolved(Some(entry.name), Some(entry), true)
    ensures Clean(token) in v.byName ==>
              Resolve(v, token) == Resolved(Some(Clean(token)), Some(v.byName[Clean(token)]), false)
  {
    hide IntOf, Zfill3, IdChars;
    if Clean(token) in v.byName {
      NameIsNoNumeral(v, Clean(token));
    }
  }

  lemma NameIsNoNumeral(v: Vocabulary, name: string)
    requires WellFormed(v) && name in v.byName
    ensures name != "" && !AllDigits(name)
  {
    assert !IsDigit(name[0]);
  }

  // ---- Items: tokens with the token they consume ----

  /** A word standing alone, an unknown token, TARGET with its target, CONFIDENCE with its number. */
  datatype Item = Word(name: string, entry: Entry, numeral: bool, raw: string)
                | Unknown(raw: string)
                | TargetOf(target: Option<string>)
                | ConfidenceOf(value: Option<real>)

  function NumberBehind(f: Floats, tokens: seq<string>): Option<real>
  {
    if |tokens| > 1 then NumberOf(f, tokens[1]) else None
  }

  /** The first item of a text, and how many tokens it takes. */
  function FirstItem(v: Vocabulary, f: Floats, tokens: seq<string>): (r: (Item, nat))
    requires tokens != []
    ensures 1 <= r.1 <= |tokens|
  {
    var r := Resolve(v, tokens[0]);
    if r.entry.None? || r.name.None? then (Unknown(tokens[0]), 1)
    else if r.name.value == "TARGET" && |tokens| > 1 then
      var next := Resolve(v, tokens[1]);
      (TargetOf(if next.entry.Some? then next.name else None), 2)
    else if r.name.value == "CONFIDENCE" && !IsAction(r.entry.value) then
      if NumberBehind(f, tokens).Some? then (ConfidenceOf(Some(Clamp(NumberBehind(f, tokens).value))), 2)
      else (ConfidenceOf(None), 1)
    else (Word(r.name.value, r.entry.value, r.numeric, tokens[0]), 1)
  }

  function Items(v: Vocabulary, f: Floats, tokens: seq<string>): seq<Item>
    decreases |tokens|
  {
    if tokens == [] then [] else [FirstItem(v, f, tokens).0] + Items(v, f, tokens[FirstItem(v, f, tokens).1..])
  }

  // ---- What an item is ----

  predicate EndItem(i: Item) { i.Word? && i.name == "END" }

  predicate ActionItem(i: Item) { i.Word? && i.name != "END" && IsAction(i.entry) }

  predicate PriorityItem(i: Item) { i.Word? && i.name != "END" && !IsAction(i.entry) && IsPriority(i.name) }

  predicate ObjectItem(i: Item)
  {
    i.Word? && i.name != "END" && !IsAction(i.entry) && !IsPriority(i.name) && IsObject(i.entry)
  }

  /** A word that becomes the object if there is none yet. */
  predicate Filing(i: Item)
  {
    ObjectItem(i) || (i.Word? && i.name == "STATE")
  }

  predicate StateItem(i: Item)
  {
    && i.Word? && i.name != "END" && !IsAction(i.entry) && !IsPriority(i.name) && !IsObject(i.entry)
    && (IsState(i.entry) || IsStateWord(i.name) || IsTargetState(i.name) || (IsMeta(i.entry) && IsTruth(i.name)))
  }

  /** A word that becomes the target if there is none yet. */
  predicate TargetWord(i: Item)
  {
    StateItem(i) && IsTargetState(i.name)
  }

  predicate Targeting(i: Item)
  {
    TargetWord(i) || (i.TargetOf? && i.target.Some?)
  }

  /** A word that no branch files. */
  predicate Unfiled(i: Item)
  {
    i.Word? && i.name != "END" && !IsAction(i.entry) && !IsPriority(i.name) && !IsObject(i.entry) && !StateItem(i)
  }

  ghost predicate HasFiling(items: seq<Item>)
  {
    exists i :: 0 <= i < |items| && Filing(items[i])
  }

  ghost predicate HasTargeting(items: seq<Item>)
  {
    exists i :: 0 <= i < |items| && Targeting(items[i])
  }

  /** The item is filed as a state: STATE itself only behind an object, a target word only behind a target. */
  ghost predicate StateAt(items: seq<Item>, i: int)
    requires 0 <= i < |items|
  {
    && StateItem(items[i]) && (items[i].name == "STATE" ==> HasFiling(items[..i]))
    && (IsTargetState(items[i].name) ==> HasTargeting(items[..i]))
  }

  /** The item is a number that no branch files; STATE is filed as the object if there is none. */
  ghost predicate UnmappedAt(items: seq<Item>, i: int)
    requires 0 <= i < |items|
  {
    Unfiled(items[i]) && items[i].numeral && (items[i].name == "STATE" ==> HasFiling(items[..i]))
  }

  // ---- Fields by position ----

  /** The names of the action words, in order. */
  function ActionNames(items: seq<Item>): seq<string>
  {
    if items == [] then []
    else
      var x := items[|items| - 1];
      ActionNames(items[..|items| - 1]) + (if ActionItem(x) then [x.name] else [])
  }

  /** The errors, in order. */
  ghost function ErrorsOf(items: seq<Item>): seq<ParseError>
  {
    if items == [] then []
    else
      var k := |items| - 1;
      ErrorsOf(items[..k])
      + (if items[k].Unknown? then [ParseError("UNKNOWN_OPCODE", items[k].raw)]
         else if UnmappedAt(items, k) then [ParseError("UNMAPPED_NUMERIC", items[k].raw)] else [])
  }

  ghost predicate EndMeans(items: seq<Item>, end: bool)
  {
    end <==> exists i :: 0 <= i < |items| && EndItem(items[i])
  }

  ghost predicate LastPriority(items: seq<Item>, i: int)
  {
    0 <= i < |items| && PriorityItem(items[i]) && forall j :: i < j < |items| ==> !PriorityItem(items[j])
  }

  /** The last priority word counts. */
  ghost predicate PriorityMeans(items: seq<Item>, priority: Option<string>)
  {
    && (priority.Some? <==> exists i :: 0 <= i < |items| && PriorityItem(items[i]))
    && forall i :: LastPriority(items, i) ==> priority == Some(items[i].name)
  }

  ghost predicate LastConfidence(items: seq<Item>, i: int)
  {
    0 <= i < |items| && items[i].ConfidenceOf? && forall j :: i < j < |items| ==> !items[j].ConfidenceOf?
  }

  /** The last CONFIDENCE counts, even without a number. */
  ghost predicate ConfidenceMeans(items: seq<Item>, confidence: Option<real>)
  {
    && (confidence.Some? ==> exists i :: 0 <= i < |items| && items[i].ConfidenceOf?)
    && forall i :: LastConfidence(items, i) ==> confidence == items[i].value
  }

  ghost predicate FirstFiling(items: seq<Item>, i: int)
  {
    0 <= i < |items| && Filing(items[i]) && forall j :: 0 <= j < i ==> !Filing(items[j])
  }

  /** The first object word behind the object. */
  ghost predicate NextObject(items: seq<Item>, i: int, j: int)
  {
    FirstFiling(items, i) && i < j < |items| && ObjectItem(items[j]) && forall k :: i < k < j ==> !ObjectItem(items[k])
  }

  ghost predicate HasNext(items: seq<Item>)
  {
    exists i, j :: FirstFiling(items, i) && i < j < |items| && ObjectItem(items[j])
  }

  /** The first object word, or STATE before one, is the object; the next object word is the destination. */
  ghost predicate ObjectMeans(items: seq<Item>, o: Option<string>, d: Option<string>)
  {
    && (o.Some? <==> HasFiling(items))
    && (forall i :: FirstFiling(items, i) ==> o == Some(items[i].name))
    && (d.Some? <==> HasNext(items))
    && forall i, j :: NextObject(items, i, j) ==> d == Some(items[j].name)
  }

  ghost predicate Named(i: Item)
  {
    i.TargetOf? && i.target.Some?
  }

  ghost predicate LastNamed(items: seq<Item>, i: int)
  {
    0 <= i < |items| && Named(items[i]) && forall j :: i < j < |items| ==> !Named(items[j])
  }

  ghost predicate FirstTargetWord(items: seq<Item>, i: int)
  {
    && 0 <= i < |items| && TargetWord(items[i])
    && (forall j :: 0 <= j < i ==> !TargetWord(items[j])) && (forall j :: 0 <= j < |items| ==> !Named(items[j]))
  }

  /** The last TARGET with a known word counts; without one, the first target word. */
  ghost predicate TargetMeans(items: seq<Item>, target: Option<string>)
  {
    && (target.Some? <==> HasTargeting(items))
    && (forall i :: LastNamed(items, i) ==> target == items[i].target)
    && forall i :: FirstTargetWord(items, i) ==> target == Some(items[i].name)
  }

  ghost predicate FirstState(items: seq<Item>, i: int)
  {
    0 <= i < |items| && StateAt(items, i) && forall j :: 0 <= j < i ==> !StateAt(items, j)
  }

  /** The first word filed as a state counts. */
  ghost predicate StateMeans(items: seq<Item>, state: Option<string>)
  {
    && (state.Some? <==> exists i :: 0 <= i < |items| && StateAt(items, i))
    && forall i :: FirstState(items, i) ==> state == Some(items[i].name)
  }

  // ---- The loop over items ----

  function StepItem(p: Parsed, item: Item): Parsed
  {
    match item
    case Unknown(raw) => p.(errors := p.errors + [ParseError("UNKNOWN_OPCODE", raw)])
    case TargetOf(t) => if t.Some? then p.(target := t) else p
    case ConfidenceOf(c) => p.(confidence := c)
    case Word(n, e, numeral, raw) =>
      if n == "END" then p.(end := true)
      else if n == "STATE" && p.object_.None? then p.(object_ := Some(n))
      else if IsAction(e) then p.(actions := p.actions + [n])
      else if IsPriority(n) then p.(priority := Some(n))
      else if IsObject(e) then
        if p.object_.None? then p.(object_ := Some(n))
        else if p.destination.None? then p.(destination := Some(n)) else p
      else if StateItem(item) then
        if IsTargetState(n) && p.target.None? then p.(target := Some(n))
        else if p.state.None? then p.(state := Some(n)) else p
      else if numeral then p.(errors := p.errors + [ParseError("UNMAPPED_NUMERIC", raw)])
      else p
  }

  function RunItems(items: seq<Item>): Parsed
  {
    if items == [] then NOTHING else StepItem(RunItems(items[..|items| - 1]), items[|items| - 1])
  }

  /** A pass of the token loop handles the first item. */
  lemma StepIsItem(v: Vocabulary, f: Floats, tokens: seq<string>, p: Parsed)
    requires tokens != []
    ensures Step(v, f, tokens, p) == (StepItem(p, FirstItem(v, f, tokens).0), FirstItem(v, f, tokens).1)
  {
    hide Resolve, NumberOf, Clamp, IsAction, IsObject, IsState, IsMeta, IsTargetState, IsStateWord, IsPriority,
      IsTruth;
    Keywords();
  }

  lemma {:induction false} LoopIsItems(v: Vocabulary, f: Floats, tokens: seq<string>, items: seq<Item>)
    ensures ParseRest(v, f, tokens, RunItems(items)) == RunItems(items + Items(v, f, tokens))
    decreases |tokens|
  {
    hide Step, StepItem, FirstItem;
    if tokens == [] {
      assert items + [] == items;
    } else {
      var (item, used) := FirstItem(v, f, tokens);
      StepIsItem(v, f, tokens, RunItems(items));
      assert (items + [item])[..|items|] == items;
      LoopIsItems(v, f, tokens[used..], items + [item]);
      assert (items + [item]) + Items(v, f, tokens[used..]) == items + Items(v, f, tokens);
    }
  }

  // ---- What the loop computes, field by field ----

  lemma EndSnoc(items: seq<Item>, x: Item, end: bool)
    requires EndMeans(items, end)
    ensures EndMeans(items + [x], end || EndItem(x))
  {
    hide EndItem;
    assert (items + [x])[|items|] == x;
    if i :| 0 <= i < |items| && EndItem(items[i]) {
      assert (items + [x])[i] == items[i];
    }
  }

  lemma PrioritySnoc(items: seq<Item>, x: Item, priority: Option<string>)
    requires PriorityMeans(items, priority)
    ensures PriorityMeans(items + [x], if PriorityItem(x) then Some(x.name) else priority)
  {
    hide PriorityItem;
    var more := items + [x];
    assert more[|items|] == x;
    assert LastPriority(more, |items|) <==> PriorityItem(x);
    forall i
      ensures i != |items| ==> (LastPriority(more, i) <==> LastPriority(items, i) && !PriorityItem(x))
    {
      assert forall j :: 0 <= j < |items| ==> more[j] == items[j];
    }
  }

  lemma ConfidenceSnoc(items: seq<Item>, x: Item, confidence: Option<real>)
    requires ConfidenceMeans(items, confidence)
    ensures ConfidenceMeans(items + [x], if x.ConfidenceOf? then x.value else confidence)
  {
    var more := items + [x];
    assert more[|items|] == x;
    assert LastConfidence(more, |items|) <==> x.ConfidenceOf?;
    forall i
      ensures i != |items| ==> (LastConfidence(more, i) <==> LastConfidence(items, i) && !x.ConfidenceOf?)
    {
      assert forall j :: 0 <= j < |items| ==> more[j] == items[j];
    }
  }

  lemma FilingSnoc(items: seq<Item>, x: Item, i: int)
    ensures i < |items| ==> (FirstFiling(items + [x], i) <==> FirstFiling(items, i))
    ensures FirstFiling(items + [x], |items|) <==> Filing(x) && !HasFiling(items)
    ensures HasFiling(items + [x]) <==> HasFiling(items) || Filing(x)
  {
    hide Filing;
    var more := items + [x];
    assert more[|items|] == x;
    assert forall j :: 0 <= j < |items| ==> more[j] == items[j];
  }

  lemma NextSnoc(items: seq<Item>, x: Item)
    ensures HasNext(items + [x]) <==> HasNext(items) || (HasFiling(items) && ObjectItem(x))
    ensures forall i, j :: NextObject(items + [x], i, j) ==>
                             (j < |items| && NextObject(items, i, j)) || 
                             (j == |items| && ObjectItem(x) && HasFiling(items) && !HasNext(items))
  {
    hide Filing, ObjectItem, FirstFiling, HasFiling;
    var (more, n) := (items + [x], |items|);
    assert more[n] == x && forall j :: 0 <= j < n ==> more[j] == items[j];
    forall i: int
      ensures i < n ==> (FirstFiling(more, i) <==> FirstFiling(items, i))
      ensures FirstFiling(more, i) ==> 0 <= i <= n
      ensures FirstFiling(items, i) ==> 0 <= i < n && HasFiling(items)
    {
      FilingSnoc(items, x, i);
      FirstIsOne(items, x, i);
    }
    if HasFiling(items) && ObjectItem(x) {
      var i := FilingExists(items);
      assert FirstFiling(more, i) && i < n < |more| && ObjectItem(more[n]);
    }
    if HasNext(items) {
      var i, j :| FirstFiling(items, i) && i < j < n && ObjectItem(items[j]);
      assert FirstFiling(more, i) && i < j < |more| && ObjectItem(more[j]);
      forall i' | FirstFiling(items, i')
        ensures i' == i
      {
        FirstUnique(items, i, i');
      }
    }
    if HasNext(more) {
      var i, j :| FirstFiling(more, i) && i < j < |more| && ObjectItem(more[j]);
      assert FirstFiling(items, i);
      if j < n {
        assert ObjectItem(items[j]);
      }
    }
  }

  lemma FirstUnique(items: seq<Item>, i: int, i': int)
    requires FirstFiling(items, i) && FirstFiling(items, i')
    ensures i == i'
  {
    hide Filing;
  }

  lemma ObjectSnoc(items: seq<Item>, x: Item, o: Option<string>, d: Option<string>)
    requires ObjectMeans(items, o, d)
    ensures o.None? && Filing(x) ==> ObjectMeans(items + [x], Some(x.name), d)
    ensures o.Some? && ObjectItem(x) && d.None? ==> ObjectMeans(items + [x], o, Some(x.name))
    ensures o.Some? && ObjectItem(x) && d.Some? ==> ObjectMeans(items + [x], o, d)
    ensures (o.Some? && !ObjectItem(x)) || !Filing(x) ==> ObjectMeans(items + [x], o, d)
  {
    hide Filing, ObjectItem, HasFiling, FirstFiling, HasNext, NextObject;
    var more := items + [x];
    assert more[|items|] == x && forall j :: 0 <= j < |items| ==> more[j] == items[j];
    ObjectsAreFiled(x);
    NextSnoc(items, x);
    NextIsInside(items);
    FilingSnoc(items, x, |items|);
    forall i: int
      ensures i < |items| ==> (FirstFiling(more, i) <==> FirstFiling(items, i))
      ensures FirstFiling(more, |items|) <==> Filing(x) && !HasFiling(items)
      ensures HasFiling(more) <==> HasFiling(items) || Filing(x)
      ensures FirstFiling(more, i) ==> 0 <= i <= |items| && (i == |items| || HasFiling(items))
    {
      FilingSnoc(items, x, i);
      FirstIsOne(items, x, i);
    }
  }

  lemma NextIsInside(items: seq<Item>)
    ensures HasNext(items) ==> HasFiling(items)
    ensures forall i, j :: NextObject(items, i, j) ==> 0 <= j < |items| && HasNext(items)
  {
    hide Filing, ObjectItem;
  }

  lemma ObjectsAreFiled(x: Item)
    ensures ObjectItem(x) ==> Filing(x)
  {
  }

  lemma FirstIsOne(items: seq<Item>, x: Item, i: int)
    ensures FirstFiling(items, i) ==> 0 <= i < |items| && HasFiling(items)
    ensures FirstFiling(items + [x], i) ==> 0 <= i <= |items| && (i == |items| || HasFiling(items))
  {
    hide Filing;
    var more := items + [x];
    assert forall j :: 0 <= j < |items| ==> more[j] == items[j];
  }

  lemma {:induction false} FilingExists(items: seq<Item>) returns (i: int)
    requires HasFiling(items)
    ensures FirstFiling(items, i)
  {
    hide Filing;
    var front := items[..|items| - 1];
    assert items == front + [items[|items| - 1]];
    if HasFiling(front) {
      i := FilingExists(front);
      FilingSnoc(front, items[|items| - 1], i);
    } else {
      i := |items| - 1;
      FilingSnoc(front, items[|items| - 1], i);
    }
  }

  lemma TargetSnoc(items: seq<Item>, x: Item, target: Option<string>)
    requires TargetMeans(items, target)
    ensures Named(x) ==> TargetMeans(items + [x], x.target)
    ensures TargetWord(x) ==> TargetMeans(items + [x], if target.None? then Some(x.name) else target)
    ensures !Named(x) && !TargetWord(x) ==> TargetMeans(items + [x], target)
    ensures HasTargeting(items + [x]) <==> HasTargeting(items) || Targeting(x)
  {
    hide TargetWord;
    var (more, n) := (items + [x], |items|);
    assert more[n] == x && forall j :: 0 <= j < n ==> more[j] == items[j];
    NamedIsNoWord(x);
    if HasTargeting(items) {
      var i :| 0 <= i < n && Targeting(items[i]);
      assert Targeting(more[i]);
    }
    forall i
      ensures LastNamed(more, i) ==> (i == n && Named(x)) || (!Named(x) && LastNamed(items, i))
    {
    }
    forall i
      ensures FirstTargetWord(more, i) ==>
                !Named(x) && (FirstTargetWord(items, i) || (i == n && TargetWord(x) && !HasTargeting(items)))
    {
      if FirstTargetWord(more, i) {
        assert forall j :: 0 <= j < n ==> !Named(more[j]);
      }
    }
  }

  lemma NamedIsNoWord(x: Item)
    ensures TargetWord(x) ==> x.Word?
  {
  }

  lemma StateAtSnoc(items: seq<Item>, x: Item, i: int)
    requires 0 <= i <= |items|
    ensures i < |items| ==> (StateAt(items + [x], i) <==> StateAt(items, i))
    ensures i == |items| ==> (StateAt(items + [x], i) <==>
                              && StateItem(x) && (x.name == "STATE" ==> HasFiling(items))
                              && (IsTargetState(x.name) ==> HasTargeting(items)))
  {
    hide StateItem, HasFiling, HasTargeting, IsTargetState;
    if i < |items| {
      assert (items + [x])[..i] == items[..i];
    } else {
      assert (items + [x])[..i] == items;
    }
  }

  lemma StateSnoc(items: seq<Item>, x: Item, state: Option<string>)
    requires StateMeans(items, state)
    ensures StateMeans(items + [x], if state.None? && StateAt(items + [x], |items|) then Some(x.name) else state)
  {
    hide StateAt;
    var (more, n) := (items + [x], |items|);
    assert more[n] == x;
    forall i | 0 <= i < n
      ensures StateAt(more, i) <==> StateAt(items, i)
      ensures more[i] == items[i]
    {
      StateAtSnoc(items, x, i);
    }
    forall i
      ensures FirstState(more, i) ==> FirstState(items, i) || (i == n && StateAt(more, n) && state.None?)
    {
    }
    StateWords(items, x);
  }

  lemma StateWords(items: seq<Item>, x: Item)
    ensures StateAt(items + [x], |items|) ==> x.Word?
  {
  }

  /** All fields at once. */
  ghost predicate Means(items: seq<Item>, p: Parsed)
  {
    && EndMeans(items, p.end) && p.actions == ActionNames(items) && PriorityMeans(items, p.priority)
    && ConfidenceMeans(items, p.confidence) && ObjectMeans(items, p.object_, p.destination)
    && TargetMeans(items, p.target) && StateMeans(items, p.state) && p.errors == ErrorsOf(items)
  }

  lemma ActionSnoc(items: seq<Item>, x: Item)
    ensures ActionNames(items + [x]) == ActionNames(items) + (if ActionItem(x) then [x.name] else [])
  {
    assert (items + [x])[..|items|] == items;
  }

  lemma ErrorSnoc(items: seq<Item>, x: Item)
    ensures ErrorsOf(items + [x]) ==
            ErrorsOf(items)
            + (if x.Unknown? then [ParseError("UNKNOWN_OPCODE", x.raw)]
               else if Unfiled(x) && x.numeral && (x.name == "STATE" ==> HasFiling(items))
               then [ParseError("UNMAPPED_NUMERIC", x.raw)] else [])
  {
    hide Unfiled, HasFiling;
    assert (items + [x])[..|items|] == items;
  }

  /** What STATE and the other words are, one against the other. */
  lemma ItemKinds(x: Item)
    requires x.Word? && x.name == "STATE" ==> !IsAction(x.entry)
    ensures EndItem(x) ==> !ActionItem(x) && !PriorityItem(x) && !Filing(x) && !StateItem(x) && !Unfiled(x)
    ensures ActionItem(x) ==> !PriorityItem(x) && !Filing(x) && !StateItem(x) && !Unfiled(x)
    ensures PriorityItem(x) ==> !Filing(x) && !StateItem(x) && !Unfiled(x)
    ensures ObjectItem(x) ==> Filing(x) && !StateItem(x) && !Unfiled(x)
    ensures StateItem(x) ==> !Unfiled(x) && (Filing(x) <==> x.name == "STATE")
    ensures Unfiled(x) ==> (Filing(x) <==> x.name == "STATE")
    ensures TargetWord(x) ==> StateItem(x) && x.name != "STATE"
    ensures !x.Word? ==> !EndItem(x) && !ActionItem(x) && !PriorityItem(x) && !Filing(x) && !StateItem(x) && !Unfiled(x)
  {
    hide IsAction, IsObject, IsState, IsMeta, IsTargetState, IsStateWord, IsPriority, IsTruth;
    Keywords();
  }

  lemma StepMeans(items: seq<Item>, x: Item, p: Parsed)
    requires Means(items, p) && (x.Word? && x.name == "STATE" ==> !IsAction(x.entry))
    ensures Means(items + [x], StepItem(p, x))
  {
    hide EndMeans, PriorityMeans, ConfidenceMeans, ObjectMeans, TargetMeans, StateMeans, ErrorsOf, ActionNames,
      HasFiling, HasTargeting, EndItem, ActionItem, PriorityItem, ObjectItem, Filing, StateItem, TargetWord, Unfiled,
      Targeting, StateAt;
    ItemKinds(x);
    if x.Word? {
      KindsOfWord(x);
    }
    EndSnoc(items, x, p.end);
    PrioritySnoc(items, x, p.priority);
    ConfidenceSnoc(items, x, p.confidence);
    ObjectSnoc(items, x, p.object_, p.destination);
    TargetSnoc(items, x, p.target);
    StateAtSnoc(items, x, |items|);
    StateSnoc(items, x, p.state);
    ActionSnoc(items, x);
    ErrorSnoc(items, x);
    Presence(items, p);
  }

  /** Which fields are set says what has been met. */
  lemma Presence(items: seq<Item>, p: Parsed)
    requires ObjectMeans(items, p.object_, p.destination) && TargetMeans(items, p.target)
    ensures p.object_.Some? <==> HasFiling(items)
    ensures p.target.Some? <==> HasTargeting(items)
  {
  }

  /** The kinds in terms of the conditions the loop tests. */
  lemma KindsOfWord(x: Item)
    requires x.Word?
    ensures EndItem(x) <==> x.name == "END"
    ensures x.name != "END" ==>
              && (ActionItem(x) <==> IsAction(x.entry))
              && (PriorityItem(x) <==> !IsAction(x.entry) && IsPriority(x.name))
              && (ObjectItem(x) <==> !IsAction(x.entry) && !IsPriority(x.name) && IsObject(x.entry))
              && (Filing(x) <==> ObjectItem(x) || x.name == "STATE")
              && (Unfiled(x) <==> !ActionItem(x) && !PriorityItem(x) && !ObjectItem(x) && !StateItem(x))
              && (TargetWord(x) <==> StateItem(x) && IsTargetState(x.name))
  {
    hide IsAction, IsObject, IsState, IsMeta, IsTargetState, IsStateWord, IsPriority, IsTruth;
  }

  // ---- The parser ----

  /** Words carry the entry of their name. */
  ghost predicate KnownWord(v: Vocabulary, x: Item)
  {
    x.Word? ==> x.name in v.byName && x.entry == v.byName[x.name]
  }

  lemma FirstIsKnown(v: Vocabulary, f: Floats, tokens: seq<string>)
    requires WellFormed(v) && tokens != []
    ensures KnownWord(v, FirstItem(v, f, tokens).0)
  {
    hide Resolve, WellFormed, IsAction, NumberOf, Clamp;
    if Resolve(v, tokens[0]).entry.Some? {
      ResolvedIsKnown(v, tokens[0]);
    }
  }

  lemma {:induction false} ItemsAreKnown(v: Vocabulary, f: Floats, tokens: seq<string>)
    requires WellFormed(v)
    ensures forall i :: 0 <= i < |Items(v, f, tokens)| ==> KnownWord(v, Items(v, f, tokens)[i])
    decreases |tokens|
  {
    hide WellFormed, FirstItem, KnownWord;
    if tokens != [] {
      FirstIsKnown(v, f, tokens);
      ItemsAreKnown(v, f, tokens[FirstItem(v, f, tokens).1..]);
    }
  }

  lemma {:induction false} RunMeans(v: Vocabulary, items: seq<Item>)
    requires ReservedWords(v) && forall i :: 0 <= i < |items| ==> KnownWord(v, items[i])
    ensures Means(items, RunItems(items))
  {
    hide Means, StepItem, IsAction;
    if items == [] {
      NothingMeans();
    } else {
      var (front, x) := (items[..|items| - 1], items[|items| - 1]);
      RunMeans(v, front);
      assert KnownWord(v, x);
      StateIsNoAction(v, x);
      StepMeans(front, x, RunItems(front));
      assert front + [x] == items;
    }
  }

  lemma StateIsNoAction(v: Vocabulary, x: Item)
    requires ReservedWords(v) && KnownWord(v, x)
    ensures x.Word? && x.name == "STATE" ==> !IsAction(x.entry)
  {
    hide IsAction;
  }

  lemma NothingMeans()
    ensures Means([], NOTHING)
  {
  }

  /**
   The parser over every text: the text falls into items, and each field of the result is what the
   predicates say of the items: the last priority and the last confidence count, the first object
   word is the object and the next the destination, a named target beats target words, the first word
   filed as a state is the state, actions and errors are listed in order.
   */
  lemma ParseMeans(v: Vocabulary, f: Floats, text: seq<string>)
    requires WellFormed(v) && ReservedWords(v)
    ensures var (items, p) := (Items(v, f, text), ParseRest(v, f, text, NOTHING));
            && (p.end <==> exists i :: 0 <= i < |items| && EndItem(items[i]))
            && p.actions == ActionNames(items)
            && PriorityMeans(items, p.priority)
            && ConfidenceMeans(items, p.confidence)
            && ObjectMeans(items, p.object_, p.destination)
            && TargetMeans(items, p.target)
            && StateMeans(items, p.state)
            && p.errors == ErrorsOf(items)
  {
    hide WellFormed, ReservedWords, KnownWord, ActionNames, PriorityMeans, ConfidenceMeans, ObjectMeans, TargetMeans,
      StateMeans, ErrorsOf, EndItem, ParseRest, Items;
    var items := Items(v, f, text);
    ItemsAreKnown(v, f, text);
    RunMeans(v, items);
    LoopIsItems(v, f, text, []);
    assert [] + items == items;
    assert RunItems([]) == NOTHING;
  }

  // ---- Errors, on the tokens themselves ----

  /** The values of the errors of one code, in order. */
  function ValuesOf(errors: seq<ParseError>, code: string): seq<string>
  {
    if errors == [] then []
    else
      var e := errors[|errors| - 1];
      ValuesOf(errors[..|errors| - 1], code) + (if e.code == code then [e.value] else [])
  }

  /** The tokens that are neither names nor ids, in order. */
  function UnknownTokens(v: Vocabulary, tokens: seq<string>): seq<string>
  {
    if tokens == [] then []
    else
      var t := tokens[|tokens| - 1];
      UnknownTokens(v, tokens[..|tokens| - 1]) + (if KnownToken(v, t) then [] else [t])
  }

  /** The token stands alone: it does not mean TARGET or CONFIDENCE. */
  predicate Alone(v: Vocabulary, token: string)
  {
    Resolve(v, token).name != Some("TARGET") && Resolve(v, token).name != Some("CONFIDENCE")
  }

  /** The item of a token that stands alone. */
  function ItemOf(v: Vocabulary, token: string): Item
  {
    var r := Resolve(v, token);
    if r.entry.None? || r.name.None? then Unknown(token) else Word(r.name.value, r.entry.value, r.numeric, token)
  }

  lemma {:induction false} AloneItems(v: Vocabulary, f: Floats, tokens: seq<string>)
    requires forall i :: 0 <= i < |tokens| ==> Alone(v, tokens[i])
    ensures |Items(v, f, tokens)| == |tokens|
    ensures forall i :: 0 <= i < |tokens| ==> Items(v, f, tokens)[i] == ItemOf(v, tokens[i])
    decreases |tokens|
  {
    hide Resolve, IsAction, NumberOf, Clamp;
    if tokens != [] {
      assert Alone(v, tokens[0]);
      assert FirstItem(v, f, tokens) == (ItemOf(v, tokens[0]), 1);
      forall i | 0 <= i < |tokens| - 1
        ensures Alone(v, tokens[1..][i])
      {
        assert Alone(v, tokens[i + 1]);
      }
      AloneItems(v, f, tokens[1..]);
    }
  }

  lemma ItemKnown(v: Vocabulary, token: string)
    requires WellFormed(v)
    ensures ItemOf(v, token).Unknown? <==> !KnownToken(v, token)
    ensures ItemOf(v, token).raw == token
  {
    hide Resolve, KnownToken, WellFormed;
    ResolveMeans(v, token);
  }

  lemma ValuesSnoc(errors: seq<ParseError>, e: ParseError, code: string)
    ensures ValuesOf(errors + [e], code) == ValuesOf(errors, code) + (if e.code == code then [e.value] else [])
  {
    assert (errors + [e])[..|errors|] == errors;
  }

  lemma CodesDiffer()
    ensures "UNKNOWN_OPCODE" != "UNMAPPED_NUMERIC" && "UNKNOWN_OPCODE" != "END_MISSING"
    ensures "UNMAPPED_NUMERIC" != "END_MISSING"
  {
    assert "UNKNOWN_OPCODE"[2] != "UNMAPPED_NUMERIC"[2];
    assert "UNKNOWN_OPCODE"[0] != "END_MISSING"[0] && "UNMAPPED_NUMERIC"[0] != "END_MISSING"[0];
  }

  /** One more item adds at most one error, of its own code. */
  lemma ValuesOfSnoc(items: seq<Item>, x: Item)
    ensures ValuesOf(ErrorsOf(items + [x]), "UNKNOWN_OPCODE") ==
            ValuesOf(ErrorsOf(items), "UNKNOWN_OPCODE") + (if x.Unknown? then [x.raw] else [])
    ensures ValuesOf(ErrorsOf(items + [x]), "END_MISSING") == ValuesOf(ErrorsOf(items), "END_MISSING")
  {
    hide ValuesOf, ErrorsOf, HasFiling, StateItem;
    CodesDiffer();
    ErrorSnoc(items, x);
    var earlier := ErrorsOf(items);
    assert earlier + [] == earlier;
    if !x.TargetOf? && !x.ConfidenceOf? {
      var (unknown, unmapped) := (ParseError("UNKNOWN_OPCODE", x.raw), ParseError("UNMAPPED_NUMERIC", x.raw));
      ValuesSnoc(earlier, unknown, "UNKNOWN_OPCODE");
      ValuesSnoc(earlier, unmapped, "UNKNOWN_OPCODE");
      ValuesSnoc(earlier, unknown, "END_MISSING");
      ValuesSnoc(earlier, unmapped, "END_MISSING");
    }
  }

  lemma {:induction false} UnknownValues(v: Vocabulary, items: seq<Item>, tokens: seq<string>)
    requires WellFormed(v) && |items| == |tokens| && forall i :: 0 <= i < |tokens| ==> items[i] == ItemOf(v, tokens[i])
    ensures ValuesOf(ErrorsOf(items), "UNKNOWN_OPCODE") == UnknownTokens(v, tokens)
  {
    hide ItemOf, KnownToken, WellFormed, ErrorsOf, ValuesOf;
    if tokens == [] {
      NoValues();
    } else {
      var k := |tokens| - 1;
      UnknownValues(v, items[..k], tokens[..k]);
      ItemKnown(v, tokens[k]);
      assert items[..k] + [items[k]] == items;
      ValuesOfSnoc(items[..k], items[k]);
    }
  }

  lemma NoValues()
    ensures ErrorsOf([]) == [] && forall code :: ValuesOf([], code) == []
  {
  }

  /**
   Over every text without TARGET and CONFIDENCE, the unknown opcodes reported are the tokens that are
   neither names nor ids, in order.
   */
  lemma UnknownAreReported(v: Vocabulary, f: Floats, text: seq<string>)
    requires WellFormed(v) && ReservedWords(v)
    requires forall i :: 0 <= i < |text| ==> Alone(v, text[i])
    ensures ValuesOf(ParseRest(v, f, text, NOTHING).errors, "UNKNOWN_OPCODE") == UnknownTokens(v, text)
    ensures ParseRest(v, f, text, NOTHING).end <==>
            exists i :: 0 <= i < |text| && KnownToken(v, text[i]) && Resolve(v, text[i]).name == Some("END")
  {
    hide WellFormed, ReservedWords, KnownToken, Alone, ParseRest, ErrorsOf, Items, Resolve, ItemOf;
    AloneItems(v, f, text);
    ParseMeans(v, f, text);
    UnknownValues(v, Items(v, f, text), text);
    forall i | 0 <= i < |text|
      ensures EndItem(Items(v, f, text)[i]) <==> KnownToken(v, text[i]) && Resolve(v, text[i]).name == Some("END")
    {
      EndToken(v, text[i]);
    }
  }

  lemma EndToken(v: Vocabulary, token: string)
    requires WellFormed(v)
    ensures EndItem(ItemOf(v, token)) <==> KnownToken(v, token) && Resolve(v, token).name == Some("END")
  {
    hide Resolve, KnownToken, WellFormed;
    ResolveMeans(v, token);
  }

  /** A text of vocabulary names is parsed without errors. */
  lemma NamesHaveNoErrors(v: Vocabulary, f: Floats, text: seq<string>)
    requires WellFormed(v) && ReservedWords(v)
    requires forall i :: 0 <= i < |text| ==> text[i] in v.byName
    ensures ParseRest(v, f, text, NOTHING).errors == []
  {
    hide WellFormed, ReservedWords, ParseRest, ErrorsOf, Items;
    ParseMeans(v, f, text);
    ItemsOfNames(v, f, text);
    NoErrorsOf(Items(v, f, text));
  }

  ghost predicate Harmless(x: Item)
  {
    !x.Unknown? && (x.Word? ==> !x.numeral)
  }

  lemma FirstOfNames(v: Vocabulary, f: Floats, text: seq<string>)
    requires WellFormed(v) && text != [] && text[0] in v.byName
    ensures Harmless(FirstItem(v, f, text).0)
  {
    hide Resolve, WellFormed, IsAction, NumberOf, Clamp;
    NameResolves(v, text[0]);
  }

  lemma {:induction false} ItemsOfNames(v: Vocabulary, f: Floats, text: seq<string>)
    requires WellFormed(v) && forall i :: 0 <= i < |text| ==> text[i] in v.byName
    ensures forall i :: 0 <= i < |Items(v, f, text)| ==> Harmless(Items(v, f, text)[i])
    decreases |text|
  {
    hide WellFormed, FirstItem, Harmless;
    if text != [] {
      FirstOfNames(v, f, text);
      ItemsOfNames(v, f, text[FirstItem(v, f, text).1..]);
    }
  }

  lemma {:induction false} NoErrorsOf(items: seq<Item>)
    requires forall i :: 0 <= i < |items| ==> Harmless(items[i])
    ensures ErrorsOf(items) == []
  {
    hide HasFiling, ErrorsOf, StateItem;
    if items == [] {
      NoValues();
    } else {
      var (front, x) := (items[..|items| - 1], items[|items| - 1]);
      NoErrorsOf(front);
      ErrorSnoc(front, x);
      assert front + [x] == items && Harmless(x);
    }
  }

  /** END_MISSING is reported, last and once, exactly if END is required and did not occur. */
  lemma EndIsRequired(v: Vocabulary, f: Floats, text: seq<string>, requireEnd: bool)
    requires WellFormed(v) && ReservedWords(v)
    ensures var (items, p) := (Items(v, f, text), ParseRest(v, f, text, NOTHING));
            Symbolic(v, f, text, requireEnd) ==
            if requireEnd && forall i :: 0 <= i < |items| ==> !EndItem(items[i])
            then p.(errors := p.errors + [ParseError("END_MISSING", "END")]) else p
    ensures ValuesOf(ParseRest(v, f, text, NOTHING).errors, "END_MISSING") == []
  {
    hide WellFormed, ReservedWords, ParseRest, ErrorsOf, Items, EndItem;
    ParseMeans(v, f, text);
    NoEndError(Items(v, f, text));
  }

  lemma {:induction false} NoEndError(items: seq<Item>)
    ensures ValuesOf(ErrorsOf(items), "END_MISSING") == []
  {
    hide ErrorsOf, ValuesOf;
    if items == [] {
      NoValues();
    } else {
      var k := |items| - 1;
      NoEndError(items[..k]);
      assert items[..k] + [items[k]] == items;
      ValuesOfSnoc(items[..k], items[k]);
    }
  }

  /** In either form, the switch only adds the missing END: reported exactly if required and not met. */
  lemma DecodedEnd(v: Vocabulary, f: Floats, tokens: seq<string>)
    requires WellFormed(v) && ReservedWords(v) && tokens != []
    ensures var (p, q) := (Decode(v, f, tokens, false), Decode(v, f, tokens, true));
            && ValuesOf(p.errors, "END_MISSING") == []
            && q == p.(errors := p.errors + if p.end then [] else [ParseError("END_MISSING", "END")])
  {
    hide WellFormed, ReservedWords, Symbolic, HasThreeDigitWord, Translate, ValuesOf, Items, ParseRest;
    EndSwitch(v, f, tokens);
    if Translate(v, tokens).Some? {
      EndSwitch(v, f, Translate(v, tokens).value);
    }
  }

  lemma EndSwitch(v: Vocabulary, f: Floats, tokens: seq<string>)
    requires WellFormed(v) && ReservedWords(v)
    ensures var (p, q) := (Symbolic(v, f, tokens, false), Symbolic(v, f, tokens, true));
            && ValuesOf(p.errors, "END_MISSING") == []
            && q == p.(errors := p.errors + if p.end then [] else [ParseError("END_MISSING", "END")])
  {
    hide WellFormed, ReservedWords, ValuesOf, Items, ParseRest, ErrorsOf, EndItem;
    EndIsRequired(v, f, tokens, false);
    EndIsRequired(v, f, tokens, true);
    ParseMeans(v, f, tokens);
    var p := ParseRest(v, f, tokens, NOTHING);
    assert p.errors + [] == p.errors;
    assert p.(errors := p.errors + []) == p;
  }
}
