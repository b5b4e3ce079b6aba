/** Method patterns: the scanner and parser of the option strings that select methods, and the
    matcher over the parsed patterns. */
module MethodPatterns {
  import opened Options

  const ANY_ARGS := -1
  const NPOS := 0xFFFF_FFFF_FFFF_FFFF

  datatype MethodID = MethodID(className: Option<string>, methodName: Option<string>, numArgs: int)

  /** A string the program can hold: indices stay below npos. */
  predicate Holdable(s: string)
  {
    |s| < NPOS
  }

  predicate IsBlank(c: char)
  {
    c == ' ' || c == '\t'
  }

  predicate NotBlank(c: char)
  {
    !IsBlank(c)
  }

  predicate IsClose(c: char)
  {
    c == ')'
  }

  predicate EndsToken(c: char)
  {
    c == ' ' || c == ':' || c == '(' || c == ')'
  }

  // ---------------------------------------------------------------------------
  // Specification
  // ---------------------------------------------------------------------------

  /** The first position from i on whose character satisfies p, or the length of the string. */
  function Find(s: string, i: nat, p: char -> bool): (k: nat)
    requires i <= |s|
    ensures i <= k <= |s| && (k < |s| ==> p(s[k]))
    ensures forall j :: i <= j < k ==> !p(s[j])
    decreases |s| - i
  {
    if i == |s| || p(s[i]) then i else Find(s, i + 1, p)
  }

  lemma {:induction false} FindIs(s: string, i: nat, p: char -> bool, k: nat)
    requires i <= k <= |s| && (forall j :: i <= j < k ==> !p(s[j])) && (k < |s| ==> p(s[k]))
    ensures Find(s, i, p) == k
  {
    var f := Find(s, i, p);
    assert forall j :: i <= j < |s| && p(s[j]) ==> j >= k && f <= j;
  }

  /** A token and the position after it; or the exception the program throws when only blanks are left. */
  datatype ScanResult = Token(text: string, next: nat) | ScanThrows

  function ScanAt(s: string, i: nat): ScanResult
  {
    if i >= |s| then Token("", i)
    else
      var start := Find(s, i, NotBlank);
      if start == |s| then ScanThrows
      else
        var end := Find(s, start, EndsToken);
        Token(s[start..end], end)
  }

  /** A parsed pattern and the position after it; no pattern; or the scanner's exception. */
  datatype ParseResult = Parsed(id: MethodID, next: nat) | NoPattern | ParseThrows

  function ParseAt(s: string, i: nat): ParseResult
  {
    match ScanAt(s, i)
    case ScanThrows => ParseThrows
    case Token(text, next) =>
      if text == "" then NoPattern
      else if text == "*" then Parsed(MethodID(Some(text), None, ANY_ARGS), next)
      else if next < |s| && s[next] == ':' then
        match ScanAt(s, next + 1)
        case ScanThrows => ParseThrows
        case Token(name, after) => ParseRest(s, Some(text), name, after)
      else ParseRest(s, None, text, next)
  }

  /** What may follow the method name: nothing, a space, or an argument count. */
  function ParseRest(s: string, className: Option<string>, name: string, i: nat): ParseResult
  {
    if i >= |s| || s[i] == ' ' then Parsed(MethodID(className, Some(name), ANY_ARGS), i)
    else if s[i] != '(' then NoPattern
    else
      var close := Find(s, i + 1, IsClose);
      if close == |s| then Parsed(MethodID(className, Some(name), ANY_ARGS), NPOS)
      else Parsed(MethodID(className, Some(name), Atoi(s[i + 1..close])), close + 1)
  }

  /** The cursor moves on with every pattern, so reading patterns ends. */
  lemma ParseAdvances(s: string, i: nat)
    requires Holdable(s) && ParseAt(s, i).Parsed?
    ensures i < |s| && ParseAt(s, i).next > i
  {
  }

  datatype ListResult = Patterns(ids: seq<MethodID>) | ListThrows

  /** All patterns up to the first position where there is none. */
  function ParseAll(s: string, i: nat): ListResult
    requires Holdable(s)
    decreases if i < |s| then |s| - i else 0
  {
    match ParseAt(s, i)
    case ParseThrows => ListThrows
    case NoPattern => Patterns([])
    case Parsed(id, next) =>
      ParseAdvances(s, i);
      Prepend([id], ParseAll(s, next))
  }

  function Prepend(ids: seq<MethodID>, rest: ListResult): ListResult
  {
    if rest.ListThrows? then ListThrows else Patterns(ids + rest.ids)
  }

  lemma PrependSnoc(ids: seq<MethodID>, id: MethodID, rest: ListResult)
    ensures Prepend(ids, Prepend([id], rest)) == Prepend(ids + [id], rest)
  {
    if rest.Patterns? {
      assert ids + ([id] + rest.ids) == (ids + [id]) + rest.ids;
    }
  }

  // ---------------------------------------------------------------------------
  // The C library's atoi
  // ---------------------------------------------------------------------------

  predicate IsDigit(c: char)
  {
    '0' <= c <= '9'
  }

  predicate IsSpace(c: char)
  {
    c == ' ' || '\t' <= c <= '\r'
  }

  function Atoi(s: string): int
  {
    if s == "" then 0
    else if IsSpace(s[0]) then Atoi(s[1..])
    else if s[0] == '-' then -(AtoiDigits(s[1..], 0) as int)
    else if s[0] == '+' then AtoiDigits(s[1..], 0)
    else AtoiDigits(s, 0)
  }

  function AtoiDigits(s: string, acc: nat): nat
  {
    if s == "" || !IsDigit(s[0]) then acc
    else AtoiDigits(s[1..], acc * 10 + (s[0] - '0') as nat)
  }

  function Decimal(n: nat): (s: string)
    ensures s != "" && forall i :: 0 <= i < |s| ==> IsDigit(s[i])
  {
    (if n < 10 then "" else Decimal(n / 10)) + ['0' + (n % 10) as char]
  }

  lemma {:induction false} AtoiReadsDecimal(n: nat, rest: string)
    ensures AtoiDigits(Decimal(n) + rest, 0) == AtoiDigits(rest, n)
  {
    var last := ['0' + (n % 10) as char];
    if n < 10 {
      assert (last + rest)[1..] == rest;
    } else {
      AtoiReadsDecimal(n / 10, last + rest);
      assert Decimal(n) + rest == Decimal(n / 10) + (last + rest);
      assert (last + rest)[1..] == rest;
    }
  }

  /** A number is read up to what is no digit, with a sign before it, and blanks before that are skipped. */
  lemma AtoiReadsNumber(n: nat, rest: string)
    requires rest == "" || !IsDigit(rest[0])
    ensures Atoi(Decimal(n) + rest) == n && Atoi("+" + (Decimal(n) + rest)) == n
    ensures Atoi("-" + (Decimal(n) + rest)) == -(n as int)
  {
    var s := Decimal(n) + rest;
    AtoiReadsDecimal(n, rest);
    assert s[0] == Decimal(n)[0];
    assert ("+" + s)[1..] == s && ("-" + s)[1..] == s;
  }

  /** What starts with no digit, no sign and no blank is read as 0. */
  lemma AtoiReadsNothing(s: string, c: char)
    ensures s == "" || (!IsDigit(s[0]) && !IsSpace(s[0]) && s[0] != '-' && s[0] != '+') ==> Atoi(s) == 0
    ensures IsSpace(c) ==> Atoi([c] + s) == Atoi(s)
  {
    assert ([c] + s)[1..] == s;
  }

  // ---------------------------------------------------------------------------
  // The program
  // ---------------------------------------------------------------------------

  /** The string library's searches, which answer npos when there is nothing to find. */
  function FindFirst(s: string, i: nat, p: char -> bool): (k: nat)
    requires Holdable(s)
    ensures i <= |s| ==> k == if Find(s, i, p) == |s| then NPOS else Find(s, i, p)
    ensures i > |s| ==> k == NPOS
  {
    if i > |s| then NPOS
    else
      var k := Find(s, i, p);
      if k == |s| then NPOS else k
  }

  method Scan(s: string, i: nat) returns (r: ScanResult)
    requires Holdable(s)
    ensures r == ScanAt(s, i)
  {
    if i >= |s| {
      return Token("", i);
    }
    var start := FindFirst(s, i, NotBlank);
    var end := FindFirst(s, start, EndsToken);
    if end == NPOS {
      end := |s|;
    }
    if start > |s| {
      return ScanThrows;  // a substring from npos
    }
    return Token(s[start..end], end);
  }

  method ParseArgs(s: string, i: nat) returns (numArgs: int, next: nat)
    requires Holdable(s) && i < |s| && s[i] == '('
    ensures var close := Find(s, i + 1, IsClose);
            if close == |s| then numArgs == ANY_ARGS && next == NPOS
            else numArgs == Atoi(s[i + 1..close]) && next == close + 1
  {
    var start := i + 1;
    next := FindFirst(s, start, IsClose);
    if next == NPOS {
      return ANY_ARGS, next;
    }
    numArgs := Atoi(s[start..next]);
    next := next + 1;
  }

  method Parse(s: string, i: nat) returns (r: ParseResult)
    requires Holdable(s)
    ensures r == ParseAt(s, i)
  {
    var scanned := Scan(s, i);
    if scanned.ScanThrows? {
      return ParseThrows;
    }
    var token, next := scanned.text, scanned.next;
    if token == "" {
      return NoPattern;
    }
    var className: Option<string> := None;
    if token == "*" {
      return Parsed(MethodID(Some(token), None, ANY_ARGS), next);
    }
    if next < |s| && s[next] == ':' {
      className := Some(token);
      scanned := Scan(s, next + 1);
      if scanned.ScanThrows? {
        return ParseThrows;
      }
      token, next := scanned.text, scanned.next;
    }
    r := ParseEnd(s, className, token, next);
  }

  /** The end of the parse, after the method name. */
  method ParseEnd(s: string, className: Option<string>, token: string, i: nat) returns (r: ParseResult)
    requires Holdable(s)
    ensures r == ParseRest(s, className, token, i)
  {
    if i >= |s| || s[i] == ' ' {
      return Parsed(MethodID(className, Some(token), ANY_ARGS), i);
    }
    if s[i] != '(' {
      return NoPattern;
    }
    var numArgs, next := ParseArgs(s, i);
    return Parsed(MethodID(className, Some(token), numArgs), next);
  }

  /** The loop of MethodSet::insert. */
  method ParsePatterns(s: string) returns (r: ListResult)
    requires Holdable(s)
    ensures r == ParseAll(s, 0)
  {
    var ids: seq<MethodID> := [];
    ghost var i := 0;
    var parsed := Parse(s, 0);
    while parsed.Parsed?
      invariant parsed == ParseAt(s, i)
      invariant ParseAll(s, 0) == Prepend(ids, ParseAll(s, i))
      decreases if i < |s| then |s| - i else 0
    {
      ParseAdvances(s, i);
      PrependSnoc(ids, parsed.id, ParseAll(s, parsed.next));
      i := parsed.next;
      ids := ids + [parsed.id];
      parsed := Parse(s, parsed.next);
    }
    return if parsed.ParseThrows? then ListThrows else Patterns(ids);
  }

  /** Whether some parsed pattern selects a method; no signature means no argument count. */
  method Contains(ids: seq<MethodID>, methodName: Option<string>, className: Option<string>, sigArgs: Option<int>)
    returns (found: bool)
    ensures found <==> exists i :: 0 <= i < |ids| && Selects(ids[i], methodName, className, sigArgs)
  {
    var numArgs := if sigArgs.Some? then sigArgs.value else ANY_ARGS;
    var strClassName := if className.Some? then className.value else "";
    var strMethodName := if methodName.Some? then methodName.value else "";
    for k := 0 to |ids|
      invariant forall i :: 0 <= i < k ==> !Selects(ids[i], methodName, className, sigArgs)
    {
      var p := ids[k];
      if p.className.Some? && p.className.value == "*" {
        return true;
      }
      if p.numArgs != ANY_ARGS && p.numArgs != numArgs {
        continue;
      }
      if p.methodName.Some? && p.methodName.value != strMethodName {
        continue;
      }
      if p.className.None? {
        return true;
      }
      if p.className.value == strClassName {
        return true;
      }
    }
    return false;
  }

  /** Everything a parsed pattern names agrees with the method; a null name counts as empty. */
  predicate Selects(p: MethodID, methodName: Option<string>, className: Option<string>, sigArgs: Option<int>)
  {
    || p.className == Some("*")
    || (&& Agrees(p.className, className)
        && Agrees(p.methodName, methodName)
        && (p.numArgs == ANY_ARGS || Some(p.numArgs) == sigArgs))
  }

  /** A null class or method name is matched as the empty one. */
  lemma NullIsEmpty(p: MethodID, methodName: Option<string>, className: Option<string>, sigArgs: Option<int>)
    ensures Selects(p, None, className, sigArgs) <==> Selects(p, Some(""), className, sigArgs)
    ensures Selects(p, methodName, None, sigArgs) <==> Selects(p, methodName, Some(""), sigArgs)
  {
  }

  predicate Agrees(wanted: Option<string>, actual: Option<string>)
  {
    wanted.None? || wanted.value == (if actual.None? then "" else actual.value)
  }

  // ---------------------------------------------------------------------------
  // The documented grammar
  // ---------------------------------------------------------------------------

  datatype Pattern =
    | Any
    | Method(name: string, args: Option<nat>)
    | ClassMethod(class_: string, name: string, args: Option<nat>)
  {
    /** A bare method name or a class name that is a lone star would read as "any method". */
    predicate Valid() {
      match this
      case Any => true
      case Method(name, _) => IsName(name) && name != "*"
      case ClassMethod(class_, name, _) => IsName(class_) && IsName(name) && class_ != "*"
    }

    predicate HasArgs() {
      match this
      case Any => false
      case Method(_, args) => args.Some?
      case ClassMethod(_, _, args) => args.Some?
    }

    function Print(): string {
      match this
      case Any => "*"
      case Method(name, args) => name + PrintArgs(args)
      case ClassMethod(class_, name, args) => class_ + ":" + name + PrintArgs(args)
    }

    function ToId(): MethodID {
      match this
      case Any => MethodID(Some("*"), None, ANY_ARGS)
      case Method(name, args) => MethodID(None, Some(name), ArgCount(args))
      case ClassMethod(class_, name, args) => MethodID(Some(class_), Some(name), ArgCount(args))
    }

    /** What the pattern says: any method, or a name, perhaps a class, perhaps an argument count. */
    predicate Means(method_: string, inClass: string, sigArgs: Option<int>) {
      match this
      case Any => true
      case Method(name, args) => name == method_ && ArgsMean(args, sigArgs)
      case ClassMethod(class_, name, args) => class_ == inClass && name == method_ && ArgsMean(args, sigArgs)
    }
  }

  predicate IsName(s: string)
  {
    s != "" && forall i :: 0 <= i < |s| ==> !IsBlank(s[i]) && !EndsToken(s[i])
  }

  function PrintArgs(args: Option<nat>): string
  {
    if args.None? then "" else "(" + Decimal(args.value) + ")"
  }

  function ArgCount(args: Option<nat>): int
  {
    if args.None? then ANY_ARGS else args.value
  }

  predicate ArgsMean(args: Option<nat>, sigArgs: Option<int>)
  {
    args.None? || Some(args.value as int) == sigArgs
  }

  /** A parsed pattern selects what the pattern means. */
  lemma SelectsAsMeant(p: Pattern, method_: string, inClass: string, sigArgs: Option<int>)
    requires p.Valid()
    ensures Selects(p.ToId(), Some(method_), Some(inClass), sigArgs) <==> p.Means(method_, inClass, sigArgs)
  {
  }

  // ---------------------------------------------------------------------------
  // Printing and parsing
  // ---------------------------------------------------------------------------

  predicate AllBlank(s: string)
  {
    forall i :: 0 <= i < |s| ==> IsBlank(s[i])
  }

  lemma ScanReadsName(pre: string, gap: string, name: string, rest: string)
    requires AllBlank(gap) && IsName(name) && (rest != "" ==> EndsToken(rest[0]))
    ensures ScanAt(pre + gap + name + rest, |pre|) == Token(name, |pre + gap + name|)
  {
    var s, start, end := pre + gap + name + rest, |pre + gap|, |pre + gap + name|;
    assert forall j :: |pre| <= j < start ==> s[j] == gap[j - |pre|];
    assert forall j :: start <= j < end ==> s[j] == name[j - start];
    assert end < |s| ==> s[end] == rest[0];
    FindIs(s, |pre|, NotBlank, start);
    FindIs(s, start, EndsToken, end);
    assert s[start..end] == name;
  }

  lemma ParseRestReadsArgs(pre: string, className: Option<string>, name: string, args: Option<nat>, rest: string)
    requires Holdable(pre + PrintArgs(args) + rest) && (args.Some? || rest == "" || rest[0] == ' ')
    ensures ParseRest(pre + PrintArgs(args) + rest, className, name, |pre|) ==
            Parsed(MethodID(className, Some(name), ArgCount(args)), |pre + PrintArgs(args)|)
  {
    var s := pre + PrintArgs(args) + rest;
    if args.Some? {
      CloseFound(pre, Decimal(args.value), rest);
      AtoiReadsDecimal(args.value, "");
      assert Decimal(args.value) + "" == Decimal(args.value);
    } else {
      assert rest != "" ==> s[|pre|] == rest[0];
    }
  }

  lemma CloseFound(pre: string, digits: string, rest: string)
    requires digits != "" && forall i :: 0 <= i < |digits| ==> IsDigit(digits[i])
    ensures var s, n := pre + ("(" + digits + ")") + rest, |pre|;
            var close := n + 1 + |digits|;
            && close < |s| && s[n] == '(' && Find(s, n + 1, IsClose) == close && s[n + 1..close] == digits
  {
    var s, n := pre + ("(" + digits + ")") + rest, |pre|;
    var close := n + 1 + |digits|;
    assert s[n] == '(' && s[close] == ')';
    assert forall j :: n + 1 <= j < close ==> s[j] == digits[j - n - 1];
    FindIs(s, n + 1, IsClose, close);
    assert s[n + 1..close] == digits;
  }

  lemma ParseReadsMethod(pre: string, gap: string, name: string, args: Option<nat>, rest: string)
    requires Method(name, args).Valid() && AllBlank(gap) && (args.Some? || rest == "" || rest[0] == ' ')
    requires Holdable((pre + gap + name) + PrintArgs(args) + rest)
    ensures ParseAt((pre + gap + name) + PrintArgs(args) + rest, |pre|) ==
            Parsed(Method(name, args).ToId(), |(pre + gap + name) + PrintArgs(args)|)
  {
    var tail := PrintArgs(args) + rest;
    var s := (pre + gap + name) + PrintArgs(args) + rest;
    assert s == pre + gap + name + tail;
    ScanReadsName(pre, gap, name, tail);
    assert tail != "" ==> s[|pre + gap + name|] == tail[0] != ':';
    ParseRestReadsArgs(pre + gap + name, None, name, args, rest);
  }

  lemma ScanReadsClass(pre: string, gap: string, class_: string, rest: string)
    requires AllBlank(gap) && IsName(class_)
    ensures var s, end := (pre + gap + class_ + ":") + rest, |pre + gap + class_|;
            ScanAt(s, |pre|) == Token(class_, end) && end < |s| && s[end] == ':'
  {
    ScanReadsName(pre, gap, class_, ":" + rest);
    assert (pre + gap + class_ + ":") + rest == pre + gap + class_ + (":" + rest);
  }

  lemma ParseReadsClassMethod(pre: string, gap: string, class_: string, name: string, args: Option<nat>, rest: string)
    requires ClassMethod(class_, name, args).Valid() && AllBlank(gap) && (args.Some? || rest == "" || rest[0] == ' ')
    requires Holdable((pre + gap + class_ + ":" + name) + PrintArgs(args) + rest)
    ensures ParseAt((pre + gap + class_ + ":" + name) + PrintArgs(args) + rest, |pre|) ==
            Parsed(ClassMethod(class_, name, args).ToId(), |(pre + gap + class_ + ":" + name) + PrintArgs(args)|)
  {
    var upTo, tail := pre + gap + class_ + ":", PrintArgs(args) + rest;
    var s := (upTo + name) + PrintArgs(args) + rest;
    Regroup(upTo, name, PrintArgs(args), rest);
    assert ScanAt(s, |pre|) == Token(class_, |upTo| - 1) && s[|upTo| - 1] == ':' by {
      ScanReadsClass(pre, gap, class_, name + tail);
    }
    assert ScanAt(s, |upTo|) == Token(name, |upTo + name|) by {
      ScanReadsName(upTo, "", name, tail);
    }
    ParseOfClass(s, |pre|);
    ParseRestReadsArgs(upTo + name, Some(class_), name, args, rest);
  }

  lemma ParseOfClass(s: string, i: nat)
    ensures var class_ := ScanAt(s, i);
            class_.Token? && class_.text != "" && class_.text != "*" && class_.next < |s| && s[class_.next] == ':' ==>
              var name := ScanAt(s, class_.next + 1);
              name.Token? ==> ParseAt(s, i) == ParseRest(s, Some(class_.text), name.text, name.next)
  {
  }

  lemma Regroup(a: string, b: string, c: string, d: string)
    ensures (a + b) + c + d == a + (b + (c + d)) == a + "" + b + (c + d) && a + "" + b == a + b
  {
  }

  /** The text after a pattern does not run on into it: the end, a space, or anything after an argument count. */
  predicate EndsAt(p: Pattern, rest: string)
  {
    p.HasArgs() || rest == "" || rest[0] == ' '
  }

  lemma ParseReadsPattern(s: string, pre: string, gap: string, p: Pattern, rest: string)
    requires p.Valid() && AllBlank(gap) && EndsAt(p, rest)
    requires Holdable(s) && s == pre + gap + p.Print() + rest
    ensures ParseAt(s, |pre|) == Parsed(p.ToId(), |pre + gap + p.Print()|)
  {
    match p
    case Any =>
      ScanReadsName(pre, gap, "*", rest);
    case Method(name, args) =>
      assert pre + gap + p.Print() == (pre + gap + name) + PrintArgs(args);
      ParseReadsMethod(pre, gap, name, args, rest);
    case ClassMethod(class_, name, args) =>
      assert pre + gap + p.Print() == (pre + gap + class_ + ":" + name) + PrintArgs(args);
      ParseReadsClassMethod(pre, gap, class_, name, args, rest);
  }

  /** A pattern and the blanks before it. */
  datatype Item = Item(gap: string, pattern: Pattern)

  function PrintAll(items: seq<Item>): string
  {
    if items == [] then "" else items[0].gap + items[0].pattern.Print() + PrintAll(items[1..])
  }

  function Ids(items: seq<Item>): seq<MethodID>
  {
    if items == [] then [] else [items[0].pattern.ToId()] + Ids(items[1..])
  }

  predicate Printable(items: seq<Item>)
  {
    forall i :: 0 <= i < |items| ==> items[i].pattern.Valid() && AllBlank(items[i].gap)
  }

  /** Tabs are skipped before a token but do not end one. */
  predicate Separates(before: Pattern, gap: string)
  {
    before.HasArgs() || (gap != "" && gap[0] == ' ')
  }

  /** Every gap but the first starts with a space or follows an argument count. */
  predicate WellSeparated(items: seq<Item>)
  {
    forall i :: 0 < i < |items| ==> Separates(items[i - 1].pattern, items[i].gap)
  }

  lemma Associative(a: string, b: string, c: string)
    ensures (a + b) + c == a + (b + c)
  {
  }

  lemma EmptyPrefix(a: string)
    ensures "" + a == a
  {
  }

  lemma PrintAllSplits(s: string, pre: string, items: seq<Item>, trail: string)
    requires items != [] && s == pre + PrintAll(items) + trail
    ensures var gap, p, rest := items[0].gap, items[0].pattern, PrintAll(items[1..]) + trail;
            && s == pre + gap + p.Print() + rest
            && s == (pre + gap + p.Print()) + PrintAll(items[1..]) + trail
  {
    var first, others := items[0].gap + items[0].pattern.Print(), PrintAll(items[1..]);
    Associative(pre, first, others);
    Associative(pre, items[0].gap, items[0].pattern.Print());
    Associative(pre + first, others, trail);
  }

  /** What follows the first pattern, if it is not the end, is a gap, the next pattern or the trail. */
  lemma FirstOfRest(items: seq<Item>, trail: string)
    requires Printable(items) && AllBlank(trail)
    ensures var rest := PrintAll(items) + trail;
            && (rest != "" && rest[0] != ' ' ==> !EndsToken(rest[0]))
            && (items != [] ==> rest != "" && (rest[0] == ' ' <==> items[0].gap != "" && items[0].gap[0] == ' '))
            && (items == [] ==> rest == trail)
  {
    if items != [] {
      var gap, p, others := items[0].gap, items[0].pattern.Print(), PrintAll(items[1..]);
      FirstOfPattern(items[0].pattern);
      Regrouped4(gap, p, others, trail);
      FirstOfThree(gap, p, others + trail);
    } else {
      EmptyPrefix(trail);
    }
  }

  lemma Regrouped4(gap: string, p: string, others: string, trail: string)
    ensures (gap + p + others) + trail == gap + (p + (others + trail))
  {
  }

  lemma FirstOfThree(gap: string, p: string, more: string)
    requires p != ""
    ensures var all := gap + (p + more); all != "" && all[0] == if gap != "" then gap[0] else p[0]
  {
  }

  lemma FirstOfPattern(p: Pattern)
    requires p.Valid()
    ensures p.Print() != "" && !IsBlank(p.Print()[0]) && !EndsToken(p.Print()[0])
  {
  }

  lemma RestSeparated(items: seq<Item>)
    requires items != []
    ensures WellSeparated(items) <==>
            WellSeparated(items[1..]) && (|items| > 1 ==> Separates(items[0].pattern, items[1].gap))
    ensures Printable(items) ==> Printable(items[1..])
  {
    var rest := items[1..];
    assert forall i :: 0 <= i < |rest| ==> rest[i] == items[i + 1];
    if WellSeparated(rest) && (|items| > 1 ==> Separates(items[0].pattern, items[1].gap)) {
      forall i | 0 < i < |items| ensures Separates(items[i - 1].pattern, items[i].gap) {
        assert i > 1 ==> Separates(rest[i - 2].pattern, rest[i - 1].gap);
      }
    }
    if WellSeparated(items) {
      forall i | 0 < i < |rest| ensures Separates(rest[i - 1].pattern, rest[i].gap) {
        assert Separates(items[i].pattern, items[i + 1].gap);
      }
    }
  }

  lemma OnlyBlanksLeft(s: string, pre: string, trail: string)
    requires AllBlank(trail) && Holdable(s) && s == pre + trail
    ensures ParseAll(s, |pre|) == if trail == "" then Patterns([]) else ListThrows
  {
    assert forall j :: |pre| <= j < |s| ==> s[j] == trail[j - |pre|];
    FindIs(s, |pre|, NotBlank, |s|);
  }

  lemma ParseAllStep(s: string, i: nat, id: MethodID, next: nat)
    requires Holdable(s) && ParseAt(s, i) == Parsed(id, next)
    ensures ParseAll(s, i) == Prepend([id], ParseAll(s, next))
  {
  }

  /** The trail does not run on into the last pattern. */
  predicate TrailApart(items: seq<Item>, trail: string)
  {
    items == [] || EndsAt(items[|items| - 1].pattern, trail)
  }

  lemma FirstEnds(items: seq<Item>, trail: string)
    requires items != [] && Printable(items) && AllBlank(trail)
    ensures EndsAt(items[0].pattern, PrintAll(items[1..]) + trail) <==>
            if |items| > 1 then Separates(items[0].pattern, items[1].gap) else TrailApart(items, trail)
    ensures !EndsAt(items[0].pattern, PrintAll(items[1..]) + trail) ==> !EndsToken((PrintAll(items[1..]) + trail)[0])
  {
    RestSeparated(items);
    FirstOfRest(items[1..], trail);
  }

  /** Reading back a printed list, from any position in a string. */
  lemma {:induction false} ParseReadsAll(s: string, pre: string, items: seq<Item>, trail: string)
    requires Printable(items) && WellSeparated(items) && AllBlank(trail) && TrailApart(items, trail)
    requires Holdable(s) && s == pre + PrintAll(items) + trail
    ensures ParseAll(s, |pre|) == if trail == "" then Patterns(Ids(items)) else ListThrows
    decreases |items|
  {
    if items == [] {
      assert pre + PrintAll(items) == pre;
      OnlyBlanksLeft(s, pre, trail);
    } else {
      var gap, p, rest := items[0].gap, items[0].pattern, PrintAll(items[1..]) + trail;
      var upTo := pre + gap + p.Print();
      PrintAllSplits(s, pre, items, trail);
      RestSeparated(items);
      FirstEnds(items, trail);
      ParseReadsPattern(s, pre, gap, p, rest);
      ParseReadsAll(s, upTo, items[1..], trail);
      ParseAllStep(s, |pre|, p.ToId(), |upTo|);
    }
  }

  // ---------------------------------------------------------------------------
  // Illegal patterns
  // ---------------------------------------------------------------------------

  /** Texts that are no pattern: a delimiter where a name should be, or one after a method name that is not an
      opening parenthesis. */
  datatype Illegal =
    | NoName(delimiter: char)
    | BadEnd(name: string)
    | BadMethodEnd(class_: string, name: string, delimiter: char)
  {
    predicate Valid() {
      match this
      case NoName(c) => c == ':' || c == '(' || c == ')'
      case BadEnd(name) => IsName(name) && name != "*"
      case BadMethodEnd(class_, name, c) => IsName(class_) && class_ != "*" && IsName(name) && (c == ':' || c == ')')
    }

    function Text(): string {
      match this
      case NoName(c) => [c]
      case BadEnd(name) => name + ")"
      case BadMethodEnd(class_, name, c) => class_ + ":" + name + [c]
    }
  }

  lemma IllegalIsNoPattern(s: string, pre: string, gap: string, bad: Illegal, rest: string)
    requires bad.Valid() && AllBlank(gap) && s == pre + gap + bad.Text() + rest
    ensures ParseAt(s, |pre|) == NoPattern
  {
    match bad
    case NoName(c) =>
      var start := |pre + gap|;
      assert forall j :: |pre| <= j < start ==> s[j] == gap[j - |pre|];
      assert s[start] == c;
      FindIs(s, |pre|, NotBlank, start);
      FindIs(s, start, EndsToken, start);
    case BadEnd(name) =>
      assert s == pre + gap + name + (")" + rest);
      ScanReadsName(pre, gap, name, ")" + rest);
      assert s[|pre + gap + name|] == ')';
    case BadMethodEnd(class_, name, c) =>
      BadMethodIsNoPattern(s, pre, gap, class_, name, c, rest);
  }

  lemma BadMethodIsNoPattern(s: string, pre: string, gap: string, class_: string, name: string, c: char, rest: string)
    requires AllBlank(gap) && IsName(class_) && class_ != "*" && IsName(name) && (c == ':' || c == ')')
    requires s == pre + gap + (class_ + ":" + name + [c]) + rest
    ensures ParseAt(s, |pre|) == NoPattern
  {
    var upTo := pre + gap + class_ + ":";
    assert s == upTo + "" + name + ([c] + rest) == upTo + (name + ([c] + rest));
    ScanReadsClass(pre, gap, class_, name + ([c] + rest));
    ScanReadsName(upTo, "", name, [c] + rest);
    ParseOfClass(s, |pre|);
    assert s[|upTo + name|] == c;
  }

  lemma StartsWithGap(items: seq<Item>, trail: string)
    requires items != [] && items[0].gap != ""
    ensures PrintAll(items) + trail != "" && (PrintAll(items) + trail)[0] == items[0].gap[0]
  {
  }

  lemma FirstEndsAnyway(items: seq<Item>, trail: string)
    requires items != [] && WellSeparated(items) && TrailApart(items, trail)
    ensures EndsAt(items[0].pattern, PrintAll(items[1..]) + trail)
  {
    if |items| > 1 {
      assert Separates(items[0].pattern, items[1].gap);
      if items[1].gap != "" {
        StartsWithGap(items[1..], trail);
      }
    } else {
      assert PrintAll(items[1..]) + trail == trail;
    }
  }

  lemma PrependJoin(id: MethodID, ids: seq<MethodID>, rest: ListResult)
    ensures Prepend([id], Prepend(ids, rest)) == Prepend([id] + ids, rest)
  {
    if rest.Patterns? {
      assert [id] + (ids + rest.ids) == ([id] + ids) + rest.ids;
    }
  }

  /** A printed list is read, whatever comes after it apart from its last pattern, and reading goes on there. */
  lemma {:induction false} ParseReadsUpTo(s: string, pre: string, items: seq<Item>, trail: string, end: nat)
    requires Printable(items) && WellSeparated(items) && TrailApart(items, trail)
    requires Holdable(s) && s == pre + PrintAll(items) + trail && end == |pre| + |PrintAll(items)|
    ensures ParseAll(s, |pre|) == Prepend(Ids(items), ParseAll(s, end))
    decreases |items|
  {
    if items != [] {
      var gap, p, rest := items[0].gap, items[0].pattern, PrintAll(items[1..]) + trail;
      var upTo := pre + gap + p.Print();
      PrintAllSplits(s, pre, items, trail);
      RestSeparated(items);
      FirstEndsAnyway(items, trail);
      ParseReadsPattern(s, pre, gap, p, rest);
      TrailStaysApart(items, trail);
      ParseReadsUpTo(s, upTo, items[1..], trail, end);
      ParseAllStep(s, |pre|, p.ToId(), |upTo|);
      PrependJoin(p.ToId(), Ids(items[1..]), ParseAll(s, end));
    } else {
      PrependNone(ParseAll(s, end));
    }
  }

  lemma PrependNone(rest: ListResult)
    ensures Prepend([], rest) == rest
  {
    if rest.Patterns? {
      assert [] + rest.ids == rest.ids;
    }
  }

  lemma TrailStaysApart(items: seq<Item>, trail: string)
    requires items != [] && TrailApart(items, trail)
    ensures TrailApart(items[1..], trail)
  {
  }

  /** A list that goes on with an illegal pattern reads as the patterns before it, and what follows is ignored. */
  lemma IllegalEndsTheList(s: string, items: seq<Item>, gap: string, bad: Illegal, rest: string, trail: string)
    requires Printable(items) && WellSeparated(items) && AllBlank(gap) && bad.Valid()
    requires items == [] || Separates(items[|items| - 1].pattern, gap)
    requires Holdable(s) && s == PrintAll(items) + trail && trail == gap + bad.Text() + rest
    ensures ParseAll(s, 0) == Patterns(Ids(items))
  {
    var pre := PrintAll(items);
    EmptyPrefix(pre);
    GapKeepsApart(items, gap, bad.Text() + rest, trail);
    ParseReadsUpTo(s, "", items, trail, |pre|);
    Regrouped(pre, gap, bad.Text(), rest);
    IllegalIsNoPattern(s, pre, gap, bad, rest);
    StopsReading(s, |pre|, Ids(items));
  }

  lemma GapKeepsApart(items: seq<Item>, gap: string, more: string, trail: string)
    requires (items == [] || Separates(items[|items| - 1].pattern, gap)) && |trail| == |gap| + |more| && gap <= trail
    ensures TrailApart(items, trail)
  {
  }

  lemma StopsReading(s: string, i: nat, ids: seq<MethodID>)
    requires Holdable(s) && ParseAt(s, i) == NoPattern
    ensures Prepend(ids, ParseAll(s, i)) == Patterns(ids)
  {
    assert ids + [] == ids;
  }

  lemma Regrouped(a: string, b: string, c: string, d: string)
    ensures a + (b + c + d) == a + b + c + d
  {
  }

  /** A list that goes on with a name and an argument count that is not closed reads as the patterns before it and
      that name with any number of arguments, and nothing after. */
  lemma UnclosedEndsTheList(s: string, items: seq<Item>, gap: string, name: string, rest: string, trail: string)
    requires Printable(items) && WellSeparated(items) && AllBlank(gap) && IsName(name) && name != "*"
    requires items == [] || Separates(items[|items| - 1].pattern, gap)
    requires Holdable(s) && s == PrintAll(items) + trail && trail == gap + name + ("(" + rest)
    requires forall i :: 0 <= i < |rest| ==> rest[i] != ')'
    ensures ParseAll(s, 0) == Patterns(Ids(items) + [MethodID(None, Some(name), -1)])
  {
    var pre, id := PrintAll(items), MethodID(None, Some(name), ANY_ARGS);
    EmptyPrefix(pre);
    GapKeepsApart(items, gap, name + ("(" + rest), trail);
    ParseReadsUpTo(s, "", items, trail, |pre|);
    UnclosedIsAny(s, pre, gap, name, rest);
    ParseAllStep(s, |pre|, id, NPOS);
    PrependAll(Ids(items), id, s);
  }

  lemma UnclosedIsAny(s: string, pre: string, gap: string, name: string, rest: string)
    requires AllBlank(gap) && IsName(name) && name != "*" && Holdable(s) && s == pre + (gap + name + ("(" + rest))
    requires forall i :: 0 <= i < |rest| ==> rest[i] != ')'
    ensures ParseAt(s, |pre|) == Parsed(MethodID(None, Some(name), ANY_ARGS), NPOS)
  {
    Regrouped(pre, gap, name, "(" + rest);
    ScanReadsName(pre, gap, name, "(" + rest);
    NeverClosed(s, pre + gap + name, rest);
  }

  lemma NeverClosed(s: string, upTo: string, rest: string)
    requires s == upTo + ("(" + rest) && forall i :: 0 <= i < |rest| ==> rest[i] != ')'
    ensures |upTo| < |s| && s[|upTo|] == '(' && Find(s, |upTo| + 1, IsClose) == |s|
  {
    var n := |upTo|;
    assert s[n] == ("(" + rest)[0];
    forall j | n + 1 <= j < |s| ensures !IsClose(s[j]) {
      assert s[j] == ("(" + rest)[j - n];
      assert rest[j - n - 1] != ')';
    }
    FindIs(s, n + 1, IsClose, |s|);
  }

  lemma PrependAll(ids: seq<MethodID>, id: MethodID, s: string)
    requires Holdable(s)
    ensures Prepend(ids, Prepend([id], ParseAll(s, NPOS))) == Patterns(ids + [id])
  {
    assert [id] + [] == [id];
  }

  /** An argument count of -1 is read as any number of arguments. */
  lemma MinusOneIsAny()
    ensures ParseAll("foo(-1)", 0) == Patterns([MethodID(None, Some("foo"), ANY_ARGS)])
  {
    var s := "foo(-1)";
    assert s[0] == 'f' && s[1] == 'o' && s[2] == 'o' && s[3] == '(' && s[6] == ')';
    FindIs(s, 0, NotBlank, 0);
    FindIs(s, 0, EndsToken, 3);
    FindIs(s, 4, IsClose, 6);
    assert s[0..3] == "foo" && s[4..6] == "-" + (Decimal(1) + "");
    AtoiReadsNumber(1, "");
    ParseAllStep(s, 0, MethodID(None, Some("foo"), ANY_ARGS), 7);
  }

  // ---------------------------------------------------------------------------
  // Misreading
  // ---------------------------------------------------------------------------

  /** A token runs on over what is neither a space nor a delimiter. */
  lemma ScanRunsOn(s: string, pre: string, gap: string, name: string, rest: string)
    requires AllBlank(gap) && IsName(name) && rest != "" && !EndsToken(rest[0]) && s == pre + gap + name + rest
    ensures ScanAt(s, |pre|).Token? && |ScanAt(s, |pre|).text| > |name|
  {
    var start := |pre + gap|;
    assert forall j :: |pre| <= j < start ==> s[j] == gap[j - |pre|];
    assert s[start] == name[0];
    FindIs(s, |pre|, NotBlank, start);
    var end := Find(s, start, EndsToken);
    assert forall j :: start <= j < start + |name| ==> s[j] == name[j - start];
    assert s[start + |name|] == rest[0];
  }

  /** A parsed pattern that is not the lone star has a method name. */
  lemma ParsedName(s: string, i: nat)
    requires ScanAt(s, i).Token?
    ensures var r := ParseAt(s, i);
            r.Parsed? && ScanAt(s, i).text != "*" ==>
              && r.id.methodName.Some?
              && (r.id.className == None ==> r.id.methodName.value == ScanAt(s, i).text)
  {
  }

  /** A pattern without an argument count that the text after it runs on into is not read as itself. */
  lemma ParseMisreads(s: string, pre: string, gap: string, p: Pattern, rest: string)
    requires p.Valid() && AllBlank(gap) && !p.HasArgs() && rest != "" && !EndsToken(rest[0])
    requires Holdable(s) && s == pre + gap + p.Print() + rest
    ensures ParseAt(s, |pre|).Parsed? ==> ParseAt(s, |pre|).id != p.ToId()
  {
    match p
    case Any =>
      ScanRunsOn(s, pre, gap, "*", rest);
      ParsedName(s, |pre|);
    case Method(name, args) =>
      assert p.Print() == name;
      ScanRunsOn(s, pre, gap, name, rest);
      ParsedName(s, |pre|);
    case ClassMethod(class_, name, args) =>
      MethodRunsOn(s, pre, gap, class_, name, rest);
  }

  lemma MethodRunsOn(s: string, pre: string, gap: string, class_: string, name: string, rest: string)
    requires AllBlank(gap) && IsName(class_) && IsName(name) && class_ != "*" && rest != "" && !EndsToken(rest[0])
    requires s == pre + gap + (class_ + ":" + name) + rest
    ensures ParseAt(s, |pre|).Parsed? ==> ParseAt(s, |pre|).id.methodName != Some(name)
  {
    var upTo := pre + gap + class_ + ":";
    assert s == upTo + "" + name + rest == upTo + (name + rest);
    ScanReadsClass(pre, gap, class_, name + rest);
    ScanRunsOn(s, upTo, "", name, rest);
    ParseOfClass(s, |pre|);
  }

  lemma DifferentHead(s: string, i: nat, ids: seq<MethodID>)
    requires Holdable(s) && ids != [] && (ParseAt(s, i).Parsed? ==> ParseAt(s, i).id != ids[0])
    ensures ParseAll(s, i) != Patterns(ids)
  {
  }

  lemma {:induction false} ParseMisreadsAll(s: string, pre: string, items: seq<Item>, trail: string)
    requires Printable(items) && AllBlank(trail) && !(trail == "" && WellSeparated(items))
    requires Holdable(s) && s == pre + PrintAll(items) + trail
    ensures ParseAll(s, |pre|) != Patterns(Ids(items))
    decreases |items|
  {
    if items == [] {
      assert pre + PrintAll(items) == pre;
      OnlyBlanksLeft(s, pre, trail);
    } else {
      var gap, p, rest := items[0].gap, items[0].pattern, PrintAll(items[1..]) + trail;
      var upTo := pre + gap + p.Print();
      PrintAllSplits(s, pre, items, trail);
      RestSeparated(items);
      FirstEnds(items, trail);
      if EndsAt(p, rest) {
        ParseReadsPattern(s, pre, gap, p, rest);
        ParseMisreadsAll(s, upTo, items[1..], trail);
        ParseAllStep(s, |pre|, p.ToId(), |upTo|);
        OtherTail(p.ToId(), ParseAll(s, |upTo|), Ids(items[1..]));
      } else {
        ParseMisreads(s, pre, gap, p, rest);
        DifferentHead(s, |pre|, Ids(items));
      }
    }
  }

  lemma OtherTail(id: MethodID, parsed: ListResult, ids: seq<MethodID>)
    requires parsed != Patterns(ids)
    ensures Prepend([id], parsed) != Patterns([id] + ids)
  {
    assert ([id] + ids)[1..] == ids;
    if parsed.Patterns? {
      assert ([id] + parsed.ids)[1..] == parsed.ids;
    }
  }

  /** Printing any list of valid patterns with any blanks and parsing the result gives back the list if and
      only if no blanks follow the last pattern and every gap starts with a space or follows an argument
      count. When only blanks after the list are wrong, the program throws. */
  lemma PrintParseRoundTrip(s: string, items: seq<Item>, trail: string)
    requires Printable(items) && AllBlank(trail) && Holdable(s) && s == PrintAll(items) + trail
    ensures ParseAll(s, 0) == Patterns(Ids(items)) <==> trail == "" && WellSeparated(items)
    ensures trail != "" && WellSeparated(items) && TrailApart(items, trail) ==> ParseAll(s, 0) == ListThrows
  {
    EmptyPrefix(PrintAll(items));
    if WellSeparated(items) && TrailApart(items, trail) {
      ParseReadsAll(s, "", items, trail);
    }
    if !(trail == "" && WellSeparated(items)) {
      ParseMisreadsAll(s, "", items, trail);
    }
  }

  /** A tab between two names does not separate them, and a tab after a name does not throw: they become part
      of the name. */
  lemma TabIsPartOfName()
    ensures ParseAll("foo\tbar", 0) == Patterns([MethodID(None, Some("foo\tbar"), ANY_ARGS)])
    ensures ParseAll("foo\t", 0) == Patterns([MethodID(None, Some("foo\t"), ANY_ARGS)])
  {
    WholeIsName("foo\tbar");
    WholeIsName("foo\t");
  }

  /** Text that starts with no blank and has no space and no delimiter is one method name. */
  lemma WholeIsName(s: string)
    requires Holdable(s) && s != "" && s != "*" && !IsBlank(s[0]) && forall i :: 0 <= i < |s| ==> !EndsToken(s[i])
    ensures ParseAll(s, 0) == Patterns([MethodID(None, Some(s), ANY_ARGS)])
  {
    FindIs(s, 0, NotBlank, 0);
    FindIs(s, 0, EndsToken, |s|);
    assert s[0..|s|] == s;
    ParseAllStep(s, 0, MethodID(None, Some(s), ANY_ARGS), |s|);
  }

  /** Whatever the string, the program throws only if it ends in a blank. */
  lemma {:induction false} ThrowsOnlyOnTrailingBlank(s: string, i: nat)
    requires Holdable(s) && ParseAll(s, i) == ListThrows
    ensures s != "" && IsBlank(s[|s| - 1])
    decreases if i < |s| then |s| - i else 0
  {
    match ParseAt(s, i)
    case ParseThrows =>
      BlanksLeft(s, i);
    case NoPattern =>
    case Parsed(_, next) =>
      ParseAdvances(s, i);
      ThrowsOnlyOnTrailingBlank(s, next);
  }

  lemma BlanksLeft(s: string, i: nat)
    requires ParseAt(s, i) == ParseThrows
    ensures s != "" && IsBlank(s[|s| - 1])
  {
    var at := if ScanAt(s, i) == ScanThrows then i else ScanAt(s, i).next + 1;
    assert ScanAt(s, at) == ScanThrows;
    assert !NotBlank(s[|s| - 1]);
  }

  /** The documentation's own example, "  foo  Ns.MyClass:bar System.Array.Sort ", holds three
      patterns and ends in a blank: the parser throws. */
  lemma DocumentedExampleThrows()
    ensures ParseAll(("  " + "foo") + (("  " + ("Ns.MyClass" + ":" + "bar")) + (" " + "System.Array.Sort"))
                     + " ", 0) == ListThrows
  {
    var foo, bar, sort := Item("  ", Method("foo", None)), Item("  ", ClassMethod("Ns.MyClass", "bar", None)),
                          Item(" ", Method("System.Array.Sort", None));
    ExampleNames();
    PrintOne(sort, []);
    PrintOne(bar, [sort]);
    PrintOne(foo, [bar, sort]);
    assert PrintAll([sort]) == " " + "System.Array.Sort" by { assert [sort] + [] == [sort]; }
    assert [bar] + [sort] == [bar, sort];
    PrintParseRoundTrip(PrintAll([foo] + [bar, sort]) + " ", [foo] + [bar, sort], " ");
  }

  lemma ExampleNames()
    ensures IsName("foo") && IsName("bar") && IsName("Ns.MyClass") && IsName("System.Array.Sort")
  {
  }

  lemma PrintOne(item: Item, items: seq<Item>)
    ensures PrintAll([item] + items) == (item.gap + item.pattern.Print()) + PrintAll(items)
    ensures forall s: string :: s + PrintArgs(None) == s
  {
    assert ([item] + items)[1..] == items;
  }

  lemma {:induction false} IdsAt(items: seq<Item>, i: nat)
    requires i < |items|
    ensures |Ids(items)| == |items| && Ids(items)[i] == items[i].pattern.ToId()
  {
    if i > 0 {
      IdsAt(items[1..], i - 1);
    } else if |items| > 1 {
      IdsAt(items[1..], 0);
    }
  }

  /** From option string to answer: the method set built from a printed list selects exactly the
      methods that some pattern of the list means. */
  lemma SetMeansItsPatterns(items: seq<Item>, method_: string, inClass: string, sigArgs: Option<int>)
    requires Printable(items) && WellSeparated(items) && Holdable(PrintAll(items))
    ensures ParseAll(PrintAll(items), 0).Patterns?
    ensures var ids := ParseAll(PrintAll(items), 0).ids;
            (exists i :: 0 <= i < |ids| && Selects(ids[i], Some(method_), Some(inClass), sigArgs)) <==>
            (exists i :: 0 <= i < |items| && items[i].pattern.Means(method_, inClass, sigArgs))
  {
    assert PrintAll(items) + "" == PrintAll(items);
    PrintParseRoundTrip(PrintAll(items), items, "");
    forall i | 0 <= i < |items|
      ensures |Ids(items)| == |items|
      ensures Selects(Ids(items)[i], Some(method_), Some(inClass), sigArgs) <==>
              items[i].pattern.Means(method_, inClass, sigArgs)
    {
      IdsAt(items, i);
      SelectsAsMeant(items[i].pattern, method_, inClass, sigArgs);
    }
  }
}
