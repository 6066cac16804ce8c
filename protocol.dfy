/**
  The request-line parser of the cache server (validateRequest). The three
  request shapes are recognised by the regular expressions

    set      ^\bset\b\s+(\w+)\s+(\d+)\s+(-?\d+)\s+(\d+)
    replace  ^\breplace\b\s+(\w+)\s+(\d+)\s+(-?\d+)\s+(\d+)
    get      ^\bget\b\s+(\w+)

  After the keyword each pattern is a sequence of items: `\s+`, a capture of
  a run of one class, or the capture `(-?\d+)`. Every item is followed by an
  item (or a keyword) whose first character lies outside its class, so the
  leftmost-first match is unique and reading each item greedily finds it; the
  word boundaries `\b` are implied by the `\s+` after each keyword. Nothing is
  anchored at the end of the line: text after the match is ignored.
*/
module Protocol {
  import opened Wrappers
  import opened Scan

  datatype Command = Set | Get | Replace

  /** A recognised request: the command and the regexp's submatches, `[whole, key]` for get and `[whole, key, flags, exptime, bytes]` otherwise. */
  datatype Request = Request(command: Command, args: seq<string>)

  /** One item of a pattern after its keyword: `\s+`, `(k+)` or `(-?\d+)`. */
  datatype Item = Spaces | Capture(k: Class) | SignedDigits

  /** `\s+(\w+)\s+(\d+)\s+(-?\d+)\s+(\d+)` */
  const StorePattern: seq<Item> :=
    [Spaces, Capture(Word), Spaces, Capture(Digit), Spaces, SignedDigits, Spaces, Capture(Digit)]

  /** `\s+(\w+)` */
  const GetPattern: seq<Item> := [Spaces, Capture(Word)]

  /** The capturing items of a pattern, in order. */
  function CaptureItems(items: seq<Item>): seq<Item> {
    if items == [] then []
    else (if items[0].Spaces? then [] else [items[0]]) + CaptureItems(items[1..])
  }

  /** The class whose characters an item repeats. */
  function ClassOf(it: Item): Class {
    match it
    case Spaces => Space
    case Capture(k) => k
    case SignedDigits => Digit
  }

  /** Where a greedy match of `it` starting at `p` ends; `p` itself when the item does not match there. */
  function ItemEnd(line: string, p: nat, it: Item): (e: nat)
    requires p <= |line|
    ensures p <= e <= |line|
  {
    match it
    case Spaces => Span(line, p, Space)
    case Capture(k) => Span(line, p, k)
    case SignedDigits =>
      var q := if p < |line| && line[p] == '-' then p + 1 else p;
      var e := Span(line, q, Digit);
      if e == q then p else e
  }

  /**
    Matches `items` one after the other from `p`: the end of the match and the
    text of each capturing item, in order.
  */
  function MatchItems(line: string, p: nat, items: seq<Item>): (r: Option<(nat, seq<string>)>)
    requires p <= |line|
    ensures r.Some? ==> p <= r.value.0 <= |line|
    decreases |items|
  {
    if items == [] then Some((p, []))
    else
      var e := ItemEnd(line, p, items[0]);
      if e == p then None
      else
        match MatchItems(line, e, items[1..])
        case None => None
        case Some((end, caps)) => Some((end, (if items[0].Spaces? then [] else [line[p..e]]) + caps))
  }

  /** `^kw` followed by `items`: the submatches `[whole] + captures`. */
  function MatchAfter(line: string, kw: string, items: seq<Item>): (r: Option<seq<string>>)
    ensures r.Some? ==> |kw| <= |line| && line[..|kw|] == kw
    ensures r.Some? ==> |r.value| == 1 + |CaptureItems(items)|
    ensures r.Some? ==> |kw| <= |r.value[0]| <= |line| && line[..|r.value[0]|] == r.value[0]
  {
    if !(|kw| <= |line| && line[..|kw|] == kw) then None
    else
      match MatchItems(line, |kw|, items)
      case None => None
      case Some((end, caps)) =>
        MatchItemsCount(line, |kw|, items);
        Some([line[..end]] + caps)
  }

  /** The matcher reports one capture per capturing item. */
  lemma {:induction false} MatchItemsCount(line: string, p: nat, items: seq<Item>)
    requires p <= |line| && MatchItems(line, p, items).Some?
    ensures |MatchItems(line, p, items).value.1| == |CaptureItems(items)|
    decreases |items|
  {
    if items != [] {
      MatchItemsCount(line, ItemEnd(line, p, items[0]), items[1..]);
    }
  }

  /**
    validateRequest: the set pattern is tried first, then get, then replace;
    any other line is rejected.
  */
  function ValidateRequest(line: string): (r: Option<Request>)
    ensures r.Some? ==> |r.value.args| == if r.value.command == Get then 2 else 5
  {
    var asSet := MatchAfter(line, "set", StorePattern);
    if asSet.Some? then Some(Request(Set, asSet.value))
    else
      var asGet := MatchAfter(line, "get", GetPattern);
      if asGet.Some? then Some(Request(Get, asGet.value))
      else
        var asReplace := MatchAfter(line, "replace", StorePattern);
        if asReplace.Some? then Some(Request(Replace, asReplace.value))
        else None
  }

  // ---------------------------------------------------------------------
  // The grammar written as concatenations, independently of the scan.
  // ---------------------------------------------------------------------

  /** The text of a list of pieces, in order. */
  function Concat(pieces: seq<string>): string
    decreases |pieces|
  {
    if pieces == [] then [] else pieces[0] + Concat(pieces[1..])
  }

  /** `piece` is a non-empty text of the item's form. */
  predicate ItemText(piece: string, it: Item) {
    match it
    case Spaces => Run1(piece, Space)
    case Capture(k) => Run1(piece, k)
    case SignedDigits => if |piece| > 0 && piece[0] == '-' then Run1(piece[1..], Digit) else Run1(piece, Digit)
  }

  /**
    `pieces` spell `items` one by one, and none of them could be read longer:
    the character after each piece lies outside its item's class.
  */
  predicate Conforms(pieces: seq<string>, items: seq<Item>, rest: string)
    decreases |items|
  {
    && |pieces| == |items|
    && (items != [] ==>
         var next := Concat(pieces[1..]) + rest;
         && ItemText(pieces[0], items[0])
         && (next == [] || !In(next[0], ClassOf(items[0])))
         && Conforms(pieces[1..], items[1..], rest))
  }

  /** The pieces of the capturing items, in order. */
  function Captures(pieces: seq<string>, items: seq<Item>): seq<string>
    requires |pieces| == |items|
    decreases |items|
  {
    if items == [] then []
    else (if items[0].Spaces? then [] else [pieces[0]]) + Captures(pieces[1..], items[1..])
  }

  /**
    `line` is `kw`, then text spelling `items`, then anything; `args` are the
    whole matched text followed by the captures.
  */
  ghost predicate Spells(line: string, kw: string, items: seq<Item>, args: seq<string>) {
    exists pieces: seq<string>, rest: string ::
      && Conforms(pieces, items, rest)
      && line == kw + Concat(pieces) + rest
      && args == [kw + Concat(pieces)] + Captures(pieces, items)
  }

  /** `pieces` spell `items` one by one: the plain concatenation the regular expression describes. */
  predicate Concatenates(pieces: seq<string>, items: seq<Item>) {
    |pieces| == |items| && forall i | 0 <= i < |items| :: ItemText(pieces[i], items[i])
  }

  /** No text of item `it` starts with a character of class `k`. */
  predicate StartsOutside(it: Item, k: Class) {
    match it
    case Spaces => k == Word || k == Digit
    case Capture(c) => k == Space && (c == Word || c == Digit)
    case SignedDigits => k == Space
  }

  /** Each item's class excludes the first character of the item after it. */
  predicate Alternates(items: seq<Item>) {
    forall i | 0 <= i < |items| - 1 :: StartsOutside(items[i + 1], ClassOf(items[i]))
  }

  lemma StartsOutsideSound(piece: string, it: Item, k: Class)
    requires ItemText(piece, it) && StartsOutside(it, k)
    ensures |piece| > 0 && !In(piece[0], k)
  {
  }

  /** Both patterns alternate between `\s` and non-`\s` items. */
  lemma PatternsAlternate()
    ensures Alternates(StorePattern) && Alternates(GetPattern)
  {
  }

  /**
    For alternating items, the maximality that Conforms asks of every piece
    follows from the concatenation itself for all pieces but the last: a
    spelling is the regular expression's language with a greedy last field.
  */
  lemma {:induction false} GreedyLastOnly(pieces: seq<string>, items: seq<Item>, rest: string)
    requires items != [] && Alternates(items) && Concatenates(pieces, items)
    ensures Conforms(pieces, items, rest) <==> (rest == [] || !In(rest[0], ClassOf(items[|items| - 1])))
    decreases |items|
  {
    if |items| == 1 {
      assert Concat(pieces[1..]) + rest == rest;
      assert Conforms(pieces[1..], items[1..], rest);
    } else {
      assert pieces[1..][0] == pieces[1];
      StartsOutsideSound(pieces[1], items[1], ClassOf(items[0]));
      ConcatCons(pieces[1..], rest);
      assert Alternates(items[1..]) by {
        forall i | 0 <= i < |items[1..]| - 1
          ensures StartsOutside(items[1..][i + 1], ClassOf(items[1..][i]))
        {
          assert items[1..][i + 1] == items[i + 2] && items[1..][i] == items[i + 1];
        }
      }
      assert Concatenates(pieces[1..], items[1..]) by {
        forall i | 0 <= i < |items[1..]| ensures ItemText(pieces[1..][i], items[1..][i]) {
          assert pieces[1..][i] == pieces[i + 1] && items[1..][i] == items[i + 1];
        }
      }
      GreedyLastOnly(pieces[1..], items[1..], rest);
      assert items[1..][|items[1..]| - 1] == items[|items| - 1];
    }
  }

  // ---------------------------------------------------------------------
  // The scan agrees with the grammar.
  // ---------------------------------------------------------------------

  /** Reading one item over a piece of its form stops exactly at the end of the piece. */
  lemma ItemEndOver(line: string, p: nat, piece: string, tail: string, it: Item)
    requires p <= |line| && line[p..] == piece + tail
    requires ItemText(piece, it)
    requires tail == [] || !In(tail[0], ClassOf(it))
    ensures p + |piece| <= |line| && ItemEnd(line, p, it) == p + |piece|
    ensures line[p..p + |piece|] == piece && line[p + |piece|..] == tail
  {
    DropPrefix(line, p, piece, tail);
    assert line[p..p + |piece|] == line[p..][..|piece|];
    match it
    case Spaces =>
      SpanOver(line, p, piece, tail, Space);
    case Capture(k) =>
      SpanOver(line, p, piece, tail, k);
    case SignedDigits =>
      assert line[p] == line[p..][0] == piece[0];
      if piece[0] == '-' {
        assert line[p + 1..] == piece[1..] + tail by {
          assert line[p + 1..] == line[p..][1..];
        }
        SpanOver(line, p + 1, piece[1..], tail, Digit);
      } else {
        SpanOver(line, p, piece, tail, Digit);
      }
  }

  /** What reading one item finds is a piece of its form that cannot be extended. */
  lemma ItemEndSound(line: string, p: nat, it: Item)
    requires p <= |line|
    ensures var e := ItemEnd(line, p, it);
      e > p ==> ItemText(line[p..e], it) && (e == |line| || !In(line[e], ClassOf(it)))
  {
    var e := ItemEnd(line, p, it);
    match it
    case Spaces =>
      SpanMaximal(line, p, Space);
    case Capture(k) =>
      SpanMaximal(line, p, k);
    case SignedDigits =>
      var q := if p < |line| && line[p] == '-' then p + 1 else p;
      SpanMaximal(line, q, Digit);
      if e > p && q == p + 1 {
        assert line[p..e][1..] == line[q..e];
      }
  }

  lemma ConcatCons(pieces: seq<string>, rest: string)
    requires pieces != []
    ensures Concat(pieces) + rest == pieces[0] + (Concat(pieces[1..]) + rest)
  {
  }

  /** Every text spelling the items is matched, up to its end, with its pieces as captures. */
  lemma {:induction false} MatchItemsComplete(line: string, p: nat, items: seq<Item>, pieces: seq<string>, rest: string)
    requires p <= |line| && line[p..] == Concat(pieces) + rest
    requires Conforms(pieces, items, rest)
    ensures p + |Concat(pieces)| <= |line|
    ensures MatchItems(line, p, items) == Some((p + |Concat(pieces)|, Captures(pieces, items)))
    decreases |items|
  {
    if items != [] {
      var tail := Concat(pieces[1..]) + rest;
      ConcatCons(pieces, rest);
      ItemEndOver(line, p, pieces[0], tail, items[0]);
      var e := p + |pieces[0]|;
      MatchItemsComplete(line, e, items[1..], pieces[1..], rest);
      var caps := Captures(pieces[1..], items[1..]);
      assert MatchItems(line, e, items[1..]) == Some((e + |Concat(pieces[1..])|, caps));
      assert MatchItems(line, p, items) == Some((e + |Concat(pieces[1..])|, (if items[0].Spaces? then [] else [line[p..e]]) + caps));
    }
  }

  /** Whatever the scan matches spells the items, with the captures it reports. */
  lemma {:induction false} MatchItemsSound(line: string, p: nat, items: seq<Item>) returns (pieces: seq<string>)
    requires p <= |line| && MatchItems(line, p, items).Some?
    ensures var end := MatchItems(line, p, items).value.0;
      && line[p..end] == Concat(pieces)
      && Conforms(pieces, items, line[end..])
      && MatchItems(line, p, items).value.1 == Captures(pieces, items)
    decreases |items|
  {
    if items == [] {
      pieces := [];
    } else {
      var e := ItemEnd(line, p, items[0]);
      ItemEndSound(line, p, items[0]);
      var more := MatchItemsSound(line, e, items[1..]);
      var end := MatchItems(line, p, items).value.0;
      assert end == MatchItems(line, e, items[1..]).value.0;
      SplitAt(line, e, end, |line|);
      assert line[e..] == line[e..|line|] && line[end..] == line[end..|line|];
      ConformsCons(line[p..e], items[0], more, items[1..], line[end..]);
      assert [items[0]] + items[1..] == items;
      pieces := [line[p..e]] + more;
      SplitAt(line, p, e, end);
    }
  }

  /** What the matcher after a keyword finds spells the pattern. */
  lemma MatchAfterSound(line: string, kw: string, items: seq<Item>)
    requires MatchAfter(line, kw, items).Some?
    ensures Spells(line, kw, items, MatchAfter(line, kw, items).value)
  {
    var pieces := MatchItemsSound(line, |kw|, items);
    var end := MatchItems(line, |kw|, items).value.0;
    var rest := line[end..];
    SplitAt(line, 0, |kw|, end);
    SplitAt(line, 0, end, |line|);
    assert line[..end] == line[0..end] && line[..|kw|] == line[0..|kw|] && line == line[0..|line|];
    SpellsIntro(line, kw, items, pieces, rest);
  }

  /** Every spelling of the pattern is what the matcher after the keyword finds. */
  lemma MatchAfterComplete(line: string, kw: string, items: seq<Item>, args: seq<string>)
    requires Spells(line, kw, items, args)
    ensures MatchAfter(line, kw, items) == Some(args)
  {
    var pieces: seq<string>, rest: string :|
      && Conforms(pieces, items, rest)
      && line == kw + Concat(pieces) + rest
      && args == [kw + Concat(pieces)] + Captures(pieces, items);
    assert line[..|kw|] == kw;
    assert line[|kw|..] == Concat(pieces) + rest;
    MatchItemsComplete(line, |kw|, items, pieces, rest);
    assert line[..|kw| + |Concat(pieces)|] == kw + Concat(pieces);
  }

  /** The matcher after a keyword recognises exactly the lines that spell the pattern. */
  lemma MatchAfterSpells(line: string, kw: string, items: seq<Item>, args: seq<string>)
    ensures MatchAfter(line, kw, items) == Some(args) <==> Spells(line, kw, items, args)
  {
    if MatchAfter(line, kw, items) == Some(args) {
      MatchAfterSound(line, kw, items);
    }
    if Spells(line, kw, items, args) {
      MatchAfterComplete(line, kw, items, args);
    }
  }

  /** Both directions of the correspondence give: a keyword and pattern match a line in at most one way. */
  lemma SpellsUnique(line: string, kw: string, items: seq<Item>, args: seq<string>, other: seq<string>)
    requires Spells(line, kw, items, args) && Spells(line, kw, items, other)
    ensures args == other
  {
    MatchAfterSpells(line, kw, items, args);
    MatchAfterSpells(line, kw, items, other);
  }

  /** A line that starts with one keyword is not matched after a keyword with another first letter. */
  lemma OtherKeyword(line: string, kw: string, other: string, items: seq<Item>)
    requires |kw| > 0 && |other| > 0 && kw[0] != other[0]
    requires |kw| <= |line| && line[..|kw|] == kw
    ensures MatchAfter(line, other, items).None?
  {
    assert line[0] == line[..|kw|][0];
    if |other| <= |line| {
      assert line[..|other|][0] == line[0];
    }
  }

  /** A line is a set request, with these submatches, exactly when it spells the store pattern after "set". */
  lemma ValidateSet(line: string, args: seq<string>)
    ensures ValidateRequest(line) == Some(Request(Set, args)) <==> Spells(line, "set", StorePattern, args)
  {
    MatchAfterSpells(line, "set", StorePattern, args);
  }

  /** A line is a get request, with these submatches, exactly when it spells `\s+(\w+)` after "get". */
  lemma ValidateGet(line: string, args: seq<string>)
    ensures ValidateRequest(line) == Some(Request(Get, args)) <==> Spells(line, "get", GetPattern, args)
  {
    MatchAfterSpells(line, "get", GetPattern, args);
    if MatchAfter(line, "get", GetPattern).Some? {
      OtherKeyword(line, "get", "set", StorePattern);
    }
  }

  /** A line is a replace request, with these submatches, exactly when it spells the store pattern after "replace". */
  lemma ValidateReplace(line: string, args: seq<string>)
    ensures ValidateRequest(line) == Some(Request(Replace, args)) <==> Spells(line, "replace", StorePattern, args)
  {
    MatchAfterSpells(line, "replace", StorePattern, args);
    if MatchAfter(line, "replace", StorePattern).Some? {
      OtherKeyword(line, "replace", "set", StorePattern);
      OtherKeyword(line, "replace", "get", GetPattern);
    }
  }

  /** A line is rejected exactly when it spells none of the three patterns. */
  lemma ValidateRejects(line: string)
    ensures ValidateRequest(line) == None <==>
      forall args ::
        && !Spells(line, "set", StorePattern, args)
        && !Spells(line, "get", GetPattern, args)
        && !Spells(line, "replace", StorePattern, args)
  {
    if ValidateRequest(line) == None {
      forall args
        ensures && !Spells(line, "set", StorePattern, args)
                && !Spells(line, "get", GetPattern, args)
                && !Spells(line, "replace", StorePattern, args)
      {
        ValidateSet(line, args);
        ValidateGet(line, args);
        ValidateReplace(line, args);
      }
    } else {
      var req := ValidateRequest(line).value;
      ValidateSet(line, req.args);
      ValidateGet(line, req.args);
      ValidateReplace(line, req.args);
    }
  }

  /** The keywords differ in their first letter, so no line spells two of the patterns. */
  lemma AtMostOnePattern(line: string, args: seq<string>, other: seq<string>)
    ensures !(Spells(line, "set", StorePattern, args) && Spells(line, "get", GetPattern, other))
    ensures !(Spells(line, "set", StorePattern, args) && Spells(line, "replace", StorePattern, other))
    ensures !(Spells(line, "get", GetPattern, args) && Spells(line, "replace", StorePattern, other))
  {
    MatchAfterSpells(line, "set", StorePattern, args);
    MatchAfterSpells(line, "get", GetPattern, args);
    MatchAfterSpells(line, "get", GetPattern, other);
    MatchAfterSpells(line, "replace", StorePattern, other);
    if MatchAfter(line, "set", StorePattern).Some? {
      assert line[0] == "set"[0];
    }
    if MatchAfter(line, "get", GetPattern).Some? {
      assert line[0] == "get"[0];
    }
  }

  /** The captures of a conforming text are pieces of the capturing items' forms. */
  lemma {:induction false} CapturesForm(pieces: seq<string>, items: seq<Item>, rest: string)
    requires Conforms(pieces, items, rest)
    ensures |Captures(pieces, items)| == |CaptureItems(items)|
    ensures forall i | 0 <= i < |CaptureItems(items)| :: ItemText(Captures(pieces, items)[i], CaptureItems(items)[i])
    decreases |items|
  {
    if items != [] {
      CapturesForm(pieces[1..], items[1..], rest);
    }
  }

  /** The submatches after the whole match are pieces of the capturing items' forms. */
  lemma SpelledCaptures(line: string, kw: string, items: seq<Item>, args: seq<string>)
    requires Spells(line, kw, items, args)
    ensures |args| == 1 + |CaptureItems(items)|
    ensures forall i | 1 <= i < |args| :: ItemText(args[i], CaptureItems(items)[i - 1])
  {
    var pieces: seq<string>, rest: string :|
      && Conforms(pieces, items, rest)
      && line == kw + Concat(pieces) + rest
      && args == [kw + Concat(pieces)] + Captures(pieces, items);
    CapturesForm(pieces, items, rest);
    assert forall i | 1 <= i < |args| :: args[i] == Captures(pieces, items)[i - 1];
  }

  /** The capturing items of the two patterns. */
  lemma PatternCaptures()
    ensures CaptureItems(GetPattern) == [Capture(Word)]
    ensures CaptureItems(StorePattern) == [Capture(Word), Capture(Digit), SignedDigits, Capture(Digit)]
  {
  }

  /** The submatches of a recognised request: a word key, and for set and replace digit flags, a signed exptime and digit bytes. */
  lemma RequestFields(line: string, req: Request)
    requires ValidateRequest(line) == Some(req)
    ensures Run1(req.args[1], Word)
    ensures req.command != Get ==>
      && Run1(req.args[2], Digit)
      && ItemText(req.args[3], SignedDigits)
      && Run1(req.args[4], Digit)
  {
    PatternCaptures();
    ValidateSpells(line, req.command, req.args);
    SpelledCaptures(line, KeywordOf(req.command), PatternOf(req.command), req.args);
  }

  /** Spelling a text one item longer at the front. */
  lemma ConformsCons(piece: string, it: Item, pieces: seq<string>, items: seq<Item>, rest: string)
    requires ItemText(piece, it) && Conforms(pieces, items, rest)
    requires var next := Concat(pieces) + rest; next == [] || !In(next[0], ClassOf(it))
    ensures Conforms([piece] + pieces, [it] + items, rest)
    ensures Concat([piece] + pieces) == piece + Concat(pieces)
    ensures Captures([piece] + pieces, [it] + items) == (if it.Spaces? then [] else [piece]) + Captures(pieces, items)
  {
    assert ([piece] + pieces)[1..] == pieces;
    assert ([it] + items)[1..] == items;
  }

  /** A witness for `Spells`. */
  lemma SpellsIntro(line: string, kw: string, items: seq<Item>, pieces: seq<string>, rest: string)
    requires Conforms(pieces, items, rest) && line == kw + Concat(pieces) + rest
    ensures Spells(line, kw, items, [kw + Concat(pieces)] + Captures(pieces, items))
  {
  }

  lemma GetExampleSpells()
    ensures Spells("get foo bar", "get", GetPattern, ["get foo", "foo"])
  {
    var rest := " bar";
    assert Run1("foo", Word) && Run1(" ", Space);
    ConformsCons("foo", Capture(Word), [], [], rest);
    ConformsCons(" ", Spaces, ["foo"], [Capture(Word)], rest);
    assert [" "] + ["foo"] == [" ", "foo"];
    assert Concat([" ", "foo"]) == " foo";
    assert "get" + " foo" + rest == "get foo bar";
    assert "get" + " foo" == "get foo";
    SpellsIntro("get foo bar", "get", GetPattern, [" ", "foo"], rest);
  }

  /** Text after the key is ignored: "get foo bar" asks for "foo". */
  lemma GetIgnoresTrailingText()
    ensures ValidateRequest("get foo bar") == Some(Request(Get, ["get foo", "foo"]))
  {
    GetExampleSpells();
    ValidateGet("get foo bar", ["get foo", "foo"]);
  }

  /** A conforming text is not empty when the pattern is not. */
  lemma ConformsNonEmpty(pieces: seq<string>, items: seq<Item>, rest: string)
    requires Conforms(pieces, items, rest) && items != []
    ensures Concat(pieces) != []
  {
    assert |pieces[0]| > 0;
  }

  /** Text appended after the last item, when it cannot extend that item, keeps a text conforming. */
  lemma {:induction false} ConformsExtend(pieces: seq<string>, items: seq<Item>, rest: string, extra: string)
    requires Conforms(pieces, items, rest)
    requires rest == [] && extra != [] && items != [] ==> !In(extra[0], ClassOf(items[|items| - 1]))
    ensures Conforms(pieces, items, rest + extra)
    decreases |items|
  {
    if items != [] {
      assert items[1..] != [] ==> items[1..][|items[1..]| - 1] == items[|items| - 1];
      ConformsExtend(pieces[1..], items[1..], rest, extra);
      var next := Concat(pieces[1..]) + rest;
      if items[1..] != [] {
        ConformsNonEmpty(pieces[1..], items[1..], rest);
      }
      assert next != [] ==> (next + extra)[0] == next[0];
      assert Concat(pieces[1..]) + (rest + extra) == next + extra;
    }
  }

  /** Appending text that cannot lengthen the last item keeps a spelling, with the same submatches. */
  lemma SpellsExtend(line: string, kw: string, items: seq<Item>, args: seq<string>, extra: string)
    requires Spells(line, kw, items, args) && items != []
    requires extra != [] ==> !In(extra[0], ClassOf(items[|items| - 1]))
    ensures Spells(line + extra, kw, items, args)
  {
    var pieces: seq<string>, rest: string :|
      && Conforms(pieces, items, rest)
      && line == kw + Concat(pieces) + rest
      && args == [kw + Concat(pieces)] + Captures(pieces, items);
    ConformsExtend(pieces, items, rest, extra);
    assert line + extra == kw + Concat(pieces) + (rest + extra);
    SpellsIntro(line + extra, kw, items, pieces, rest + extra);
  }

  /** The keyword of each command. */
  function KeywordOf(c: Command): string {
    match c
    case Set => "set"
    case Get => "get"
    case Replace => "replace"
  }

  /** The pattern after each command's keyword. */
  function PatternOf(c: Command): seq<Item> {
    if c == Get then GetPattern else StorePattern
  }

  /** The three characterisations together: a line is a request of command `c` exactly when it spells that command's pattern. */
  lemma ValidateSpells(line: string, c: Command, args: seq<string>)
    ensures ValidateRequest(line) == Some(Request(c, args)) <==> Spells(line, KeywordOf(c), PatternOf(c), args)
  {
    match c
    case Set => ValidateSet(line, args);
    case Get => ValidateGet(line, args);
    case Replace => ValidateReplace(line, args);
  }

  /**
    Nothing is anchored at the end of a request line: text appended after a
    recognised line, when it cannot lengthen the last field (a digit after
    the bytes field, a word character after a get key), changes nothing.
  */
  lemma TrailingTextIgnored(line: string, extra: string)
    requires ValidateRequest(line).Some?
    requires extra != [] ==> !IsDigit(extra[0])
    requires extra != [] && ValidateRequest(line).value.command == Get ==> !IsWordChar(extra[0])
    ensures ValidateRequest(line + extra) == ValidateRequest(line)
  {
    var req := ValidateRequest(line).value;
    var items := PatternOf(req.command);
    assert ClassOf(items[|items| - 1]) == if req.command == Get then Word else Digit;
    ValidateSpells(line, req.command, req.args);
    SpellsExtend(line, KeywordOf(req.command), items, req.args, extra);
    ValidateSpells(line + extra, req.command, req.args);
  }
}
