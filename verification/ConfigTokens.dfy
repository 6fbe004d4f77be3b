/** The tokenizer of second/cfg.c: `next` with its one character of pushback, `cfg_get_token` with its one
    token of pushback, and `cfg_next`, which makes items and values of tokens.
 */
module ConfigTokens {
  import opened Common

  /** What getc returns: a character, or EOF.  Characters are signed, so the byte 0xff is read as EOF. */
  type code = x: int | -1 <= x < 0xff

  const EOF: code := -1
  const NUL: code := 0
  const TAB: code := 0x09
  const NEWLINE: code := 0x0a
  const RETURN: code := 0x0d
  const SPACE: code := 0x20
  const QUOTE: code := 0x22
  const HASH: code := 0x23
  const EQUALS: code := 0x3d
  const BACKSLASH: code := 0x5c
  const LETTER_N: code := 0x6e

  const MAX_TOKEN := 511

  type text = seq<code>

  // ---------- Reading characters ----------

  /** The characters still to come, the one pushed back first. */
  type Input = seq<code>

  function First(p: Input): code {
    if p == [] then EOF else p[0]
  }

  function Rest(p: Input): Input {
    if p == [] then [] else p[1..]
  }

  // A NUL cannot be pushed back: 0 says that nothing is.
  function PushedBack(c: code, p: Input): Input {
    if c == NUL then p else [c] + p
  }

  predicate IsBlank(c: code) {
    c == SPACE || c == TAB || c == NEWLINE || c == RETURN
  }

  // ---------- Tokens ----------

  // The token and the input behind it; an error abandons the parse.
  datatype Result = Token(s: text, rest: Input) | End(rest: Input) | Error

  // strdup stops at the first NUL.
  function CString(s: text): (r: text)
    ensures NUL !in s ==> r == s
    ensures r <= s && NUL !in r && (|r| < |s| ==> s[|r|] == NUL)
  {
    if s == [] || s[0] == NUL then [] else [s[0]] + CString(s[1..])
  }

  // Behind a '#', with `c` read: what follows the end of the line; None when the input ends first.
  function AfterComment(c: code, p: Input): (r: Option<Input>)
    ensures r.Some? ==> |r.value| <= |p|
    decreases |p|, if c == EOF then 0 else 1
  {
    if c == EOF then None
    else if c == NEWLINE || c == RETURN then Some(p)
    else AfterComment(First(p), Rest(p))
  }

  // What is left of the input when a comment has been read.
  function CommentEnd(c: code, p: Input): Input
    decreases |p|, if c == EOF then 0 else 1
  {
    if c == EOF || c == NEWLINE || c == RETURN then p else CommentEnd(First(p), Rest(p))
  }

  /** With `c` read: the first character that is neither blank nor in a comment, and what follows it. */
  function Lead(c: code, p: Input): (r: (code, Input))
    decreases |p|, if c == EOF then 0 else 1
  {
    if IsBlank(c) then Lead(First(p), Rest(p))
    else if c != HASH then (c, p)
    else
      match AfterComment(First(p), Rest(p))
      case None => (EOF, CommentEnd(First(p), Rest(p)))
      case Some(q) => Lead(First(q), Rest(q))
  }

  function SkipSpaces(c: code, p: Input): (r: (code, Input))
    ensures |r.1| <= |p|
    decreases |p|, if c == EOF then 0 else 1
  {
    if c == SPACE || c == TAB then SkipSpaces(First(p), Rest(p)) else (c, p)
  }

  datatype Escaped = Stands(c: code, rest: Input) | Nothing(rest: Input) | Misused

  /** What stands behind a backslash in quotes. */
  function Escape(p: Input): (r: Escaped)
    ensures r.Stands? ==> |r.rest| <= |p|
    ensures r.Nothing? ==> |r.rest| <= |p|
  {
    var (e, r) := (First(p), Rest(p));
    if e == QUOTE || e == BACKSLASH then Stands(e, r)
    else if e == LETTER_N then Stands(NEWLINE, r)
    else if e == NEWLINE || e == RETURN then
      // The end of the line and the blanks behind it stand for one space.
      var (c, q) := SkipSpaces(First(r), Rest(r));
      if c == NUL then Nothing(q) else Stands(SPACE, PushedBack(c, q))
    else Misused
  }

  /** Inside quotes, with `acc` read so far. */
  function Quoted(p: Input, acc: text): (r: Result)
    ensures !r.End?
    decreases |p|
  {
    var (c, r) := (First(p), Rest(p));
    if |acc| >= MAX_TOKEN || c == EOF then Error
    else if c == QUOTE then Token(CString(acc), r)
    else if c == BACKSLASH then
      match Escape(r)
      case Stands(e, q) => Quoted(q, acc + [e])
      case Nothing(q) => Quoted(q, acc)
      case Misused => Error
    else if c == NEWLINE || c == RETURN then Error
    else Quoted(r, acc + [c])
  }

  predicate EndsPlain(c: code) {
    IsBlank(c) || c == HASH || c == EQUALS || c == EOF
  }

  /** Outside quotes: `c` has been read, `p` follows, `acc` is the token so far. */
  function Plain(c: code, p: Input, escaped: bool, acc: text): (r: Result)
    ensures !r.End?
    decreases |p|, if c == EOF then 0 else 1
  {
    if |acc| >= MAX_TOKEN then Error
    else if escaped then
      if c == EOF then Error
      else Plain(First(p), Rest(p), false, if c == NEWLINE then acc else acc + [if c == TAB then SPACE else c])
    else if EndsPlain(c) then Token(CString(acc), PushedBack(c, p))
    else Plain(First(p), Rest(p), c == BACKSLASH, if c == BACKSLASH then acc else acc + [c])
  }

  /** The next token of the input. */
  function GetToken(p: Input): Result {
    var (c, r) := Lead(First(p), Rest(p));
    if c == EOF || c == NUL then End(r)
    else if c == EQUALS then Token([EQUALS], r)
    else if c == QUOTE then Quoted(r, [])
    else Plain(c, r, false, [])
  }

  // ---------- Items and values ----------

  datatype Entry = Entry(item: text, value: Option<text>)

  /** The input and the token pushed back. */
  datatype Stream = Stream(input: Input, back: Option<text>)

  datatype Outcome = Got(entry: Entry, stream: Stream) | Finished(stream: Stream) | Failed

  // A pushed back token comes first.
  function StreamToken(s: Stream): Result {
    if s.back.Some? then Token(s.back.value, s.input) else GetToken(s.input)
  }

  /** `cfg_next` as a function of what is still to come. */
  function Next(s: Stream): Outcome {
    match StreamToken(s)
    case Error => Failed
    case End(r) => Finished(Stream(r, None))
    case Token(item, r) =>
      if item == [EQUALS] then Failed
      else
        match GetToken(r)
        case Error => Failed
        case End(r') => Got(Entry(item, None), Stream(r', None))
        case Token(t, r') =>
          if t != [EQUALS] then Got(Entry(item, None), Stream(r', Some(t)))
          else
            match GetToken(r')
            case Error => Failed
            case End(_) => Failed
            case Token(v, q) =>
              if v == [EQUALS] then Failed else Got(Entry(item, Some(v)), Stream(q, None))
  }

  // ---------- Whole parses ----------

  /** How many characters are left, pushed back ends of the input not counted. */
  ghost function Weight(p: Input): nat {
    if p == [] then 0 else CodeWeight(p[0]) + Weight(p[1..])
  }

  ghost function CodeWeight(c: code): nat {
    if c == EOF then 0 else 1
  }

  ghost function Left(s: Stream): nat {
    Weight(s.input) + if s.back.Some? then 1 else 0
  }

  lemma PushedBackWeight(c: code, p: Input)
    ensures Weight(PushedBack(c, p)) <= CodeWeight(c) + Weight(p)
  {
    assert ([c] + p)[1..] == p;
  }

  lemma {:induction false} CommentWeight(c: code, p: Input)
    ensures var r := AfterComment(c, p); r.Some? ==> Weight(r.value) <= Weight(p)
    ensures Weight(CommentEnd(c, p)) <= Weight(p)
    decreases |p|, if c == EOF then 0 else 1
  {
    if c != EOF && c != NEWLINE && c != RETURN {
      CommentWeight(First(p), Rest(p));
    }
  }

  lemma {:induction false} LeadWeight(c: code, p: Input)
    ensures var (e, q) := Lead(c, p); CodeWeight(e) + Weight(q) <= CodeWeight(c) + Weight(p)
    decreases |p|, if c == EOF then 0 else 1
  {
    if IsBlank(c) {
      LeadWeight(First(p), Rest(p));
    } else if c == HASH {
      var r := AfterComment(First(p), Rest(p));
      CommentWeight(First(p), Rest(p));
      if r.Some? {
        LeadWeight(First(r.value), Rest(r.value));
      }
    }
  }

  lemma {:induction false} SpacesWeight(c: code, p: Input)
    ensures var (e, q) := SkipSpaces(c, p); CodeWeight(e) + Weight(q) <= CodeWeight(c) + Weight(p)
    decreases |p|, if c == EOF then 0 else 1
  {
    if c == SPACE || c == TAB {
      SpacesWeight(First(p), Rest(p));
    }
  }

  lemma EscapeWeight(p: Input)
    ensures var r := Escape(p); !r.Misused? ==> Weight(r.rest) <= Weight(p)
  {
    var r := Rest(p);
    SpacesWeight(First(r), Rest(r));
    var (c, q) := SkipSpaces(First(r), Rest(r));
    PushedBackWeight(c, q);
  }

  lemma {:induction false} QuotedWeight(p: Input, acc: text)
    ensures var r := Quoted(p, acc); r.Token? ==> Weight(r.rest) <= Weight(p)
    decreases |p|
  {
    hide Escape;
    var (c, r) := (First(p), Rest(p));
    if |acc| < MAX_TOKEN && c != EOF && c != QUOTE {
      if c == BACKSLASH {
        EscapeWeight(r);
        match Escape(r)
        case Stands(e, q) => QuotedWeight(q, acc + [e]);
        case Nothing(q) => QuotedWeight(q, acc);
        case Misused =>
      } else if c != NEWLINE && c != RETURN {
        QuotedWeight(r, acc + [c]);
      }
    }
  }

  lemma {:induction false} PlainWeight(c: code, p: Input, escaped: bool, acc: text)
    ensures var r := Plain(c, p, escaped, acc); r.Token? ==> Weight(r.rest) <= CodeWeight(c) + Weight(p)
    decreases |p|, if c == EOF then 0 else 1
  {
    PushedBackWeight(c, p);
    if |acc| < MAX_TOKEN && c != EOF {
      if escaped {
        PlainWeight(First(p), Rest(p), false, if c == NEWLINE then acc else acc + [if c == TAB then SPACE else c]);
      } else if !EndsPlain(c) {
        PlainWeight(First(p), Rest(p), c == BACKSLASH, if c == BACKSLASH then acc else acc + [c]);
      }
    }
  }

  /** Every token takes something from the input. */
  lemma TokenShortens(p: Input)
    ensures var r := GetToken(p); r.Token? ==> Weight(r.rest) < Weight(p)
  {
    LeadWeight(First(p), Rest(p));
    var (c, r) := Lead(First(p), Rest(p));
    QuotedWeight(r, []);
    var acc: text := [];
    if c != EOF && !EndsPlain(c) {
      PlainWeight(First(r), Rest(r), c == BACKSLASH, if c == BACKSLASH then acc else acc + [c]);
    }
    LeadStops(First(p), Rest(p));
  }

  lemma {:induction false} LeadStops(c: code, p: Input)
    ensures var e := Lead(c, p).0; !IsBlank(e) && e != HASH
    decreases |p|, if c == EOF then 0 else 1
  {
    if IsBlank(c) {
      LeadStops(First(p), Rest(p));
    } else if c == HASH {
      var r := AfterComment(First(p), Rest(p));
      if r.Some? {
        LeadStops(First(r.value), Rest(r.value));
      }
    }
  }

  /** So repeated `cfg_next` ends on every input. */
  lemma NextShortens(s: Stream)
    ensures var r := Next(s); r.Got? ==> Left(r.stream) < Left(s)
  {
    hide GetToken;
    TokenShortens(s.input);
    match StreamToken(s)
    case Token(_, r) =>
      TokenShortens(r);
      EndShortens(r);
      match GetToken(r) {
        case Token(_, q) => TokenShortens(q);
        case _ =>
      }
    case _ =>
  }

  lemma EndShortens(p: Input)
    ensures var r := GetToken(p); r.End? ==> Weight(r.rest) <= Weight(p)
  {
    hide Quoted, Plain;
    LeadWeight(First(p), Rest(p));
  }

  /** `cfg_parse`: the entries read, and whether the end of the input was reached without an error. */
  function Parsed(s: Stream): (r: (seq<Entry>, bool))
    decreases Left(s)
  {
    hide Next;
    NextShortens(s);
    match Next(s)
    case Failed => ([], false)
    case Finished(_) => ([], true)
    case Got(entry, t) => var (entries, ok) := Parsed(t); ([entry] + entries, ok)
  }

  // A parse of which `entries` is already read.
  ghost function Behind(entries: seq<Entry>, r: (seq<Entry>, bool)): (seq<Entry>, bool) {
    (entries + r.0, r.1)
  }

  lemma NothingBefore(r: (seq<Entry>, bool))
    ensures Behind([], r) == r
  {
    assert [] + r.0 == r.0;
  }

  lemma ParsedStep(entries: seq<Entry>, s: Stream)
    ensures match Next(s)
      case Failed => Behind(entries, Parsed(s)) == (entries, false)
      case Finished(_) => Behind(entries, Parsed(s)) == (entries, true)
      case Got(entry, t) => Behind(entries, Parsed(s)) == Behind(entries + [entry], Parsed(t))
  {
    hide Next;
    match Next(s)
    case Got(entry, t) => assert entries + ([entry] + Parsed(t).0) == entries + [entry] + Parsed(t).0;
    case _ => assert entries + [] == entries;
  }

  // ---------- Printing, and reading back ----------

  function Escapes(c: code): text {
    if c == QUOTE || c == BACKSLASH then [BACKSLASH, c]
    else if c == NEWLINE then [BACKSLASH, LETTER_N]
    else [c]
  }

  function Escaping(s: text): text {
    if s == [] then [] else Escapes(s[0]) + Escaping(s[1..])
  }

  function Printed(s: text): text {
    [QUOTE] + Escaping(s) + [QUOTE]
  }

  function PrintedValue(e: Entry): text {
    (if e.value.Some? then [EQUALS] + Printed(e.value.value) else []) + [NEWLINE]
  }

  /** One line an entry: the item, or the item and its value, in quotes. */
  function PrintedAll(entries: seq<Entry>): text
    decreases |entries|, 1
  {
    if entries == [] then [] else Printed(entries[0].item) + PrintedTail(entries)
  }

  function PrintedTail(entries: seq<Entry>): text
    requires entries != []
    decreases |entries|, 0
  {
    PrintedValue(entries[0]) + PrintedAll(entries[1..])
  }

  /** Between quotes, the text is read without an error. */
  predicate Readable(s: text) {
    |s| < MAX_TOKEN && EOF !in s && RETURN !in s
  }

  predicate Printable(s: text) {
    Readable(s) && NUL !in s && s != [EQUALS]
  }

  predicate EntryPrintable(e: Entry) {
    Printable(e.item) && (e.value.Some? ==> Printable(e.value.value))
  }

  predicate AllPrintable(entries: seq<Entry>) {
    forall i :: 0 <= i < |entries| ==> EntryPrintable(entries[i])
  }

  lemma InFront(b: code, c: code, x: text, more: Input)
    ensures [c] + x + more == [c] + (x + more)
    ensures [b, c] + x + more == [b] + ([c] + (x + more))
    ensures Rest([c] + (x + more)) == x + more
    ensures Rest([b] + ([c] + (x + more))) == [c] + (x + more)
  {
  }

  lemma QuotedTakes(c: code, q: Input, acc: text)
    requires |acc| < MAX_TOKEN && c != EOF && c != RETURN && Escapes(c) == [c]
    ensures Quoted([c] + q, acc) == Quoted(q, acc + [c])
  {
    assert Rest([c] + q) == q;
  }

  lemma QuotedEscapes(c: code, q: Input, acc: text)
    requires |acc| < MAX_TOKEN && |Escapes(c)| == 2
    ensures Quoted([BACKSLASH] + ([Escapes(c)[1]] + q), acc) == Quoted(q, acc + [c])
  {
    var r := [Escapes(c)[1]] + q;
    assert Rest([BACKSLASH] + r) == r && Rest(r) == q;
    assert Escape(r) == Stands(c, q);
  }

  lemma QuotedOn(s: text, more: Input, acc: text)
    requires s != [] && s[0] != EOF && s[0] != RETURN && |acc| < MAX_TOKEN
    ensures Quoted(Escaping(s) + more, acc) == Quoted(Escaping(s[1..]) + more, acc + [s[0]])
  {
    hide Quoted;
    var (c, x) := (s[0], Escaping(s[1..]));
    if |Escapes(c)| == 2 {
      InFront(BACKSLASH, Escapes(c)[1], x, more);
      QuotedEscapes(c, x + more, acc);
    } else {
      InFront(c, c, x, more);
      QuotedTakes(c, x + more, acc);
    }
  }

  lemma QuotedStep(s: text, rest: Input, acc: text)
    requires s != [] && s[0] != EOF && s[0] != RETURN && |acc| < MAX_TOKEN
    ensures Quoted(Escaping(s) + [QUOTE] + rest, acc) == Quoted(Escaping(s[1..]) + [QUOTE] + rest, acc + [s[0]])
  {
    hide Quoted, Escaping;
    QuotedOn(s, [QUOTE] + rest, acc);
    assert Escaping(s) + [QUOTE] + rest == Escaping(s) + ([QUOTE] + rest);
    assert Escaping(s[1..]) + [QUOTE] + rest == Escaping(s[1..]) + ([QUOTE] + rest);
  }

  lemma QuotedEnds(rest: Input, acc: text)
    ensures |acc| < MAX_TOKEN ==> Quoted([QUOTE] + rest, acc) == Token(CString(acc), rest)
  {
    assert Rest([QUOTE] + rest) == rest;
  }

  lemma QuotedTooLong(p: Input, acc: text)
    requires |acc| >= MAX_TOKEN
    ensures Quoted(p, acc) == Error
  {
  }

  lemma NothingToEscape()
    ensures Escaping([]) == []
  {
  }

  lemma QuotedStops(s: text, rest: Input, acc: text)
    requires s != [] && (s[0] == EOF || s[0] == RETURN)
    ensures Quoted(Escaping(s) + [QUOTE] + rest, acc) == Error
  {
    assert (Escaping(s) + [QUOTE] + rest)[0] == s[0];
  }

  /** A printed text is read back, up to its first NUL, exactly when it is readable. */
  lemma {:induction false} QuotedBack(s: text, rest: Input, acc: text)
    requires |acc| <= MAX_TOKEN
    ensures Quoted(Escaping(s) + [QUOTE] + rest, acc)
         == if |acc| + |s| < MAX_TOKEN && EOF !in s && RETURN !in s then Token(CString(acc + s), rest) else Error
    decreases |s|
  {
    hide Quoted, Escaping;
    QuotedEnds(rest, acc);
    if |acc| >= MAX_TOKEN {
      QuotedTooLong(Escaping(s) + [QUOTE] + rest, acc);
    } else if s == [] {
      NothingToEscape();
      assert Escaping(s) + [QUOTE] + rest == [QUOTE] + rest;
      assert acc + s == acc;
    } else if s[0] == EOF || s[0] == RETURN {
      QuotedStops(s, rest, acc);
    } else {
      QuotedStep(s, rest, acc);
      QuotedBack(s[1..], rest, acc + [s[0]]);
      assert acc + [s[0]] + s[1..] == acc + s;
      assert s == [s[0]] + s[1..];
    }
  }

  lemma PrintedIsToken(s: text, rest: Input)
    ensures GetToken(Printed(s) + rest) == if Readable(s) then Token(CString(s), rest) else Error
  {
    hide CString, Quoted;
    var p := Printed(s) + rest;
    assert p == [QUOTE] + (Escaping(s) + [QUOTE] + rest);
    QuotedBack(s, rest, []);
    assert [] + s == s;
  }

  lemma {:induction false} SameCString(s: text)
    ensures CString(s) == s <==> NUL !in s
    ensures |CString(s)| <= |s|
  {
    if s != [] && s[0] != NUL {
      SameCString(s[1..]);
      assert s == [s[0]] + s[1..];
    }
  }

  lemma EqualsIsToken(rest: Input)
    ensures GetToken([EQUALS] + rest) == Token([EQUALS], rest)
  {
  }

  lemma BlankIsSkipped(c: code, rest: Input)
    requires c == 0x20 || c == 0x09 || c == 0x0a || c == 0x0d
    ensures GetToken([c] + rest) == GetToken(rest)
  {
    assert Rest([c] + rest) == rest;
  }

  /** A comment in front of a token does not matter. */
  lemma CommentIsSkipped(comment: text, end: code, rest: Input)
    requires EOF !in comment && NEWLINE !in comment && RETURN !in comment && (end == NEWLINE || end == RETURN)
    ensures GetToken([HASH] + comment + [end] + rest) == GetToken(rest)
  {
    hide AfterComment;
    var p := comment + [end] + rest;
    assert [HASH] + comment + [end] + rest == [HASH] + p;
    assert Rest([HASH] + p) == p;
    CommentEnds(comment, end, rest);
  }

  lemma {:induction false} CommentEnds(comment: text, end: code, rest: Input)
    requires EOF !in comment && NEWLINE !in comment && RETURN !in comment && (end == NEWLINE || end == RETURN)
    ensures var p := comment + [end] + rest; AfterComment(First(p), Rest(p)) == Some(rest)
    decreases |comment|
  {
    var p := comment + [end] + rest;
    if comment == [] {
      assert Rest(p) == rest;
    } else {
      assert comment[0] in comment;
      assert Rest(p) == comment[1..] + [end] + rest;
      CommentEnds(comment[1..], end, rest);
    }
  }

  // ---------- Tokens without quotes ----------

  /** A text as it is written without quotes: the characters marked have a backslash in front, the others need
      none. */
  predicate IsSpelling(s: text, escaped: seq<bool>) {
    && |escaped| == |s|
    && forall i :: 0 <= i < |s| ==> Spells(s[i], escaped[i])
  }

  predicate Spells(c: code, escaped: bool) {
    c != NUL && c != EOF && (escaped || (!Separates(c) && c != BACKSLASH))
  }

  /** Space, tab, line ends, comments and equals signs separate words. */
  predicate Separates(c: code) {
    c == 0x20 || c == 0x09 || c == 0x0a || c == 0x0d || c == 0x23 || c == 0x3d
  }

  function Spelled(s: text, escaped: seq<bool>): text
    requires |escaped| == |s|
  {
    if s == [] then []
    else (if escaped[0] then [BACKSLASH, s[0]] else [s[0]]) + Spelled(s[1..], escaped[1..])
  }

  /** Behind a backslash a line end is nothing, and a tab is a space. */
  function Meant(s: text, escaped: seq<bool>): text
    requires |escaped| == |s|
  {
    if s == [] then []
    else Means(s[0], escaped[0]) + Meant(s[1..], escaped[1..])
  }

  function Means(c: code, escaped: bool): text {
    if escaped && c == NEWLINE then [] else if escaped && c == TAB then [SPACE] else [c]
  }

  lemma PlainTakes(c: code, q: Input, acc: text)
    requires |acc| < MAX_TOKEN && Spells(c, false)
    ensures Plain(c, q, false, acc) == Plain(First(q), Rest(q), false, acc + [c])
  {
  }

  lemma PlainEscapes(c: code, q: Input, acc: text)
    requires |acc| < MAX_TOKEN && Spells(c, true)
    ensures Plain(BACKSLASH, [c] + q, false, acc) == Plain(First(q), Rest(q), false, acc + Means(c, true))
  {
    assert Rest([c] + q) == q;
    assert Plain(BACKSLASH, [c] + q, false, acc) == Plain(c, q, true, acc);
    assert acc + [] == acc;
  }

  lemma PlainEnds(end: code, rest: Input, acc: text)
    requires Separates(end)
    ensures Plain(end, rest, false, acc) == if |acc| < MAX_TOKEN then Token(CString(acc), [end] + rest) else Error
  {
  }

  lemma PlainTooLong(c: code, p: Input, acc: text)
    requires |acc| >= MAX_TOKEN
    ensures Plain(c, p, false, acc) == Error
  {
  }

  lemma NothingSpelled()
    ensures Spelled([], []) == [] && Meant([], []) == []
  {
  }

  lemma SpelledStep(s: text, escaped: seq<bool>, more: Input, acc: text)
    requires IsSpelling(s, escaped) && s != [] && |acc| < MAX_TOKEN
    ensures var p := Spelled(s, escaped) + more;
      var q := Spelled(s[1..], escaped[1..]) + more;
      Plain(First(p), Rest(p), false, acc) == Plain(First(q), Rest(q), false, acc + Means(s[0], escaped[0]))
  {
    hide Plain;
    var x := Spelled(s[1..], escaped[1..]);
    var q := x + more;
    assert Spells(s[0], escaped[0]);
    InFront(BACKSLASH, s[0], x, more);
    if escaped[0] {
      PlainEscapes(s[0], q, acc);
    } else {
      PlainTakes(s[0], q, acc);
    }
  }

  lemma {:induction false} SpelledBack(s: text, escaped: seq<bool>, end: code, rest: Input, acc: text)
    requires IsSpelling(s, escaped) && Separates(end) && |acc| <= MAX_TOKEN
    ensures var p := Spelled(s, escaped) + ([end] + rest);
      var t := acc + Meant(s, escaped);
      Plain(First(p), Rest(p), false, acc) == if |t| < MAX_TOKEN then Token(CString(t), [end] + rest) else Error
    decreases |s|
  {
    hide Plain, Spelled, Means;
    var p := Spelled(s, escaped) + ([end] + rest);
    if |acc| >= MAX_TOKEN {
      PlainTooLong(First(p), Rest(p), acc);
    } else {
      if s == [] {
        NothingSpelled();
        assert p == [end] + rest;
        assert Rest(p) == rest;
        assert acc + [] == acc;
        PlainEnds(end, rest, acc);
      } else {
        var m := Means(s[0], escaped[0]);
        SpelledStep(s, escaped, [end] + rest, acc);
        OneMeant(s[0], escaped[0]);
        SpelledBack(s[1..], escaped[1..], end, rest, acc + m);
        assert acc + m + Meant(s[1..], escaped[1..]) == acc + (m + Meant(s[1..], escaped[1..]));
      }
    }
  }

  lemma OneMeant(c: code, escaped: bool)
    ensures |Means(c, escaped)| <= 1
  {
  }

  /** However a text is written without quotes, what is meant is read back exactly when it is not too long. */
  lemma SpelledIsToken(s: text, escaped: seq<bool>, end: code, rest: Input)
    requires IsSpelling(s, escaped) && Separates(end)
    requires s != [] && (escaped[0] || s[0] != QUOTE)
    ensures GetToken(Spelled(s, escaped) + ([end] + rest))
         == if |Meant(s, escaped)| < MAX_TOKEN then Token(Meant(s, escaped), [end] + rest) else Error
    ensures (forall i :: 0 <= i < |s| && escaped[i] ==> s[i] != NEWLINE && s[i] != TAB) ==> Meant(s, escaped) == s
  {
    hide Plain, Meant, CString, Spelled;
    var p := Spelled(s, escaped) + ([end] + rest);
    FirstSpelled(s, escaped, [end] + rest);
    SpelledBack(s, escaped, end, rest, []);
    assert [] + Meant(s, escaped) == Meant(s, escaped);
    SpellingHasNoNul(s, escaped);
    MeantAsWritten(s, escaped);
  }

  // No blank, comment or quote comes first.
  lemma FirstSpelled(s: text, escaped: seq<bool>, more: Input)
    requires IsSpelling(s, escaped) && s != [] && (escaped[0] || s[0] != QUOTE)
    ensures var c := First(Spelled(s, escaped) + more);
      !IsBlank(c) && c != HASH && c != EOF && c != NUL && c != EQUALS && c != QUOTE
  {
    assert Spells(s[0], escaped[0]);
  }

  lemma {:induction false} MeantAsWritten(s: text, escaped: seq<bool>)
    requires |escaped| == |s|
    ensures (forall i :: 0 <= i < |s| && escaped[i] ==> s[i] != NEWLINE && s[i] != TAB) ==> Meant(s, escaped) == s
  {
    if s != [] {
      MeantAsWritten(s[1..], escaped[1..]);
      assert s == [s[0]] + s[1..];
    }
  }

  lemma {:induction false} SpellingHasNoNul(s: text, escaped: seq<bool>)
    requires IsSpelling(s, escaped)
    ensures NUL !in Meant(s, escaped)
  {
    if s != [] {
      assert Spells(s[0], escaped[0]);
      SpellingHasNoNul(s[1..], escaped[1..]);
    }
  }

  // ---------- Continued lines ----------

  predicate AreBlanks(s: text) {
    forall i :: 0 <= i < |s| ==> s[i] == SPACE || s[i] == TAB
  }

  lemma {:induction false} SpacesSkipped(blanks: text, p: Input)
    requires AreBlanks(blanks) && First(p) != SPACE && First(p) != TAB && p != []
    ensures SkipSpaces(First(blanks + p), Rest(blanks + p)) == (p[0], p[1..])
    decreases |blanks|
  {
    if blanks == [] {
      assert blanks + p == p;
    } else {
      assert Rest(blanks + p) == blanks[1..] + p;
      SpacesSkipped(blanks[1..], p);
    }
  }

  /** In quotes, a backslash, the line end behind it, and the blanks the next line begins with are read as one
      space. */
  lemma ContinuedLine(a: text, end: code, blanks: text, b: text, rest: Input)
    requires (end == NEWLINE || end == RETURN) && AreBlanks(blanks)
    requires b != [] ==> b[0] != SPACE && b[0] != TAB && b[0] != NUL
    ensures GetToken([QUOTE] + Escaping(a) + [BACKSLASH, end] + blanks + Escaping(b) + [QUOTE] + rest)
         == GetToken(Printed(a + [SPACE] + b) + rest)
  {
    hide Quoted, Escaping, GetToken;
    var tail := Escaping(b) + [QUOTE] + rest;
    var broken := [BACKSLASH, end] + (blanks + tail);
    var whole := a + [SPACE] + b;
    Regrouped(Escaping(a), [BACKSLASH, end], blanks, Escaping(b), rest);
    assert Printed(whole) + rest == [QUOTE] + (Escaping(whole) + [QUOTE] + rest);
    QuotedToken(Escaping(a) + broken);
    QuotedToken(Escaping(whole) + [QUOTE] + rest);
    Continued(a, broken, b, rest, []) by {
      forall acc: text | |acc| < MAX_TOKEN ensures Quoted(broken, acc) == Quoted(tail, acc + [SPACE]) {
        BreakIsSpace(end, blanks, b, rest, acc);
      }
    }
  }

  lemma Regrouped(a: text, line: text, blanks: text, b: text, rest: Input)
    ensures [QUOTE] + a + line + blanks + b + [QUOTE] + rest
         == [QUOTE] + (a + (line + (blanks + (b + [QUOTE] + rest))))
  {
  }

  lemma QuotedToken(p: Input)
    ensures GetToken([QUOTE] + p) == Quoted(p, [])
  {
    hide Quoted;
    assert Rest([QUOTE] + p) == p;
  }

  lemma BreakIsSpace(end: code, blanks: text, b: text, rest: Input, acc: text)
    requires (end == NEWLINE || end == RETURN) && AreBlanks(blanks) && |acc| < MAX_TOKEN
    requires b != [] ==> b[0] != SPACE && b[0] != TAB && b[0] != NUL
    ensures var tail := Escaping(b) + [QUOTE] + rest;
      Quoted([BACKSLASH, end] + (blanks + tail), acc) == Quoted(tail, acc + [SPACE])
  {
    hide SkipSpaces, Escaping, CString;
    var tail := Escaping(b) + [QUOTE] + rest;
    var p := [BACKSLASH, end] + (blanks + tail);
    FirstPrinted(b, rest);
    SpacesSkipped(blanks, tail);
    assert Rest(p) == [end] + (blanks + tail) && Rest(Rest(p)) == blanks + tail;
    EscapedBreak(end, blanks + tail, tail);
    QuotedEscape(Rest(p), acc, SPACE, tail);
  }

  // A text printed begins with its first character, a backslash, or the closing quote.
  lemma FirstPrinted(b: text, rest: Input)
    requires b != [] ==> b[0] != SPACE && b[0] != TAB && b[0] != NUL
    ensures var tail := Escaping(b) + [QUOTE] + rest;
      tail != [] && tail[0] != SPACE && tail[0] != TAB && tail[0] != NUL
  {
  }

  lemma EscapedBreak(end: code, p: Input, tail: Input)
    requires (end == NEWLINE || end == RETURN) && tail != [] && tail[0] != NUL
    requires SkipSpaces(First(p), Rest(p)) == (tail[0], tail[1..])
    ensures Escape([end] + p) == Stands(SPACE, tail)
  {
    hide SkipSpaces;
    assert Rest([end] + p) == p;
    assert [tail[0]] + tail[1..] == tail;
  }

  lemma QuotedEscape(r: Input, acc: text, c: code, q: Input)
    requires |acc| < MAX_TOKEN && Escape(r) == Stands(c, q)
    ensures Quoted([BACKSLASH] + r, acc) == Quoted(q, acc + [c])
  {
    hide Escape;
    assert Rest([BACKSLASH] + r) == r;
  }

  lemma {:induction false} Continued(a: text, broken: Input, b: text, rest: Input, acc: text)
    requires |acc| <= MAX_TOKEN
    requires forall t: text | |t| < MAX_TOKEN ::
               Quoted(broken, t) == Quoted(Escaping(b) + [QUOTE] + rest, t + [SPACE])
    ensures Quoted(Escaping(a) + broken, acc) == Quoted(Escaping(a + [SPACE] + b) + [QUOTE] + rest, acc)
    decreases |a|
  {
    hide Quoted, Escaping;
    var whole := a + [SPACE] + b;
    if |acc| >= MAX_TOKEN {
      QuotedTooLong(Escaping(a) + broken, acc);
      QuotedTooLong(Escaping(whole) + [QUOTE] + rest, acc);
    } else if a == [] {
      NothingToEscape();
      assert Escaping(a) + broken == broken;
      assert whole[1..] == b;
      QuotedStep(whole, rest, acc);
    } else if a[0] == EOF || a[0] == RETURN {
      QuotedStops(whole, rest, acc);
      StopsHere(a, broken, acc);
    } else {
      assert whole[1..] == a[1..] + [SPACE] + b;
      QuotedStep(whole, rest, acc);
      QuotedOn(a, broken, acc);
      Continued(a[1..], broken, b, rest, acc + [a[0]]);
    }
  }

  lemma StopsHere(a: text, more: Input, acc: text)
    requires a != [] && (a[0] == EOF || a[0] == RETURN)
    ensures Quoted(Escaping(a) + more, acc) == Error
  {
    assert (Escaping(a) + more)[0] == a[0];
  }

  // ---------- Equals signs ----------

  /** Behind an item and an equals sign there must be a value: the end of the input, or another equals sign, is an
      error, and so is an equals sign without an item. */
  lemma ValueExpected(item: text, tail: Input)
    requires Printable(item)
    ensures Next(Stream(Printed(item) + [EQUALS] + tail, None)) ==
      match GetToken(tail)
      case Token(v, rest) => if v == [EQUALS] then Failed else Got(Entry(item, Some(v)), Stream(rest, None))
      case _ => Failed
    ensures Next(Stream([EQUALS] + tail, None)) == Failed
  {
    hide Printed, GetToken, CString;
    assert Printed(item) + [EQUALS] + tail == Printed(item) + ([EQUALS] + tail);
    PrintedIsToken(item, [EQUALS] + tail);
    SameCString(item);
    EqualsIsToken(tail);
  }

  // Whether the next entry is `e`.
  predicate IsNext(e: Entry, r: Outcome) {
    r.Got? && r.entry == e
  }

  // The first entry of a printed list is an item alone; the token behind it belongs to the next entry.
  lemma FirstIsFlag(entries: seq<Entry>, s: Stream)
    requires entries != [] && entries[0].value.None? && StreamToken(s) == GetToken(PrintedAll(entries))
    ensures var (e, r) := (entries[0], Next(s));
      && (IsNext(e, r) ==> EntryPrintable(e) && StreamToken(r.stream) == GetToken(PrintedAll(entries[1..])))
      && (AllPrintable(entries) ==> IsNext(e, r))
  {
    hide Printed, Readable, PrintedAll, GetToken, CString;
    var (e, more) := (entries[0], PrintedAll(entries[1..]));
    OpeningToken(entries);
    OpeningToken(entries[1..]);
    BlankIsSkipped(NEWLINE, more);
    NoToken();
    SameCString(e.item);
    assert PrintedTail(entries) == [NEWLINE] + more;
    assert AllPrintable(entries) ==> EntryPrintable(e);
    if entries[1..] != [] {
      SameCString(entries[1].item);
      assert AllPrintable(entries) ==> EntryPrintable(entries[1]);
    }
  }

  // The first entry is an item and a value.
  lemma FirstHasValue(entries: seq<Entry>, s: Stream)
    requires entries != [] && entries[0].value.Some? && StreamToken(s) == GetToken(PrintedAll(entries))
    ensures var (e, r) := (entries[0], Next(s));
      && (IsNext(e, r) ==> EntryPrintable(e) && StreamToken(r.stream) == GetToken(PrintedAll(entries[1..])))
      && (AllPrintable(entries) ==> IsNext(e, r))
  {
    hide Printed, Readable, PrintedAll, GetToken, CString;
    var (e, more) := (entries[0], PrintedAll(entries[1..]));
    var v := e.value.value;
    OpeningToken(entries);
    BlankIsSkipped(NEWLINE, more);
    SameCString(e.item);
    SameCString(v);
    assert PrintedTail(entries) == [EQUALS] + (Printed(v) + ([NEWLINE] + more));
    EqualsIsToken(Printed(v) + ([NEWLINE] + more));
    PrintedIsToken(v, [NEWLINE] + more);
    assert AllPrintable(entries) ==> EntryPrintable(e);
  }

  lemma NoToken()
    ensures GetToken([]) == End([])
  {
  }

  // The token a printed list begins with.
  lemma OpeningToken(entries: seq<Entry>)
    ensures entries == [] ==> GetToken(PrintedAll(entries)) == End([])
    ensures entries != [] ==>
      GetToken(PrintedAll(entries)) ==
        if Readable(entries[0].item) then Token(CString(entries[0].item), PrintedTail(entries)) else Error
  {
    hide Printed, PrintedTail, Readable, CString;
    if entries != [] {
      PrintedIsToken(entries[0].item, PrintedTail(entries));
    }
  }

  lemma {:induction false} ReadBack(entries: seq<Entry>, s: Stream)
    requires StreamToken(s) == GetToken(PrintedAll(entries))
    ensures Parsed(s) == (entries, true) <==> AllPrintable(entries)
    decreases |entries|
  {
    hide EntryPrintable, PrintedAll, GetToken, PrintedTail;
    if entries == [] {
      OpeningToken(entries);
    } else {
      if entries[0].value.None? {
        FirstIsFlag(entries, s);
      } else {
        FirstHasValue(entries, s);
      }
      var e := entries[0];
      assert entries == [e] + entries[1..];
      if IsNext(e, Next(s)) {
        ReadBack(entries[1..], Next(s).stream);
        var more := Parsed(Next(s).stream).0;
        assert [e] + more == entries <==> more == entries[1..] by { SameRest(e, more, entries[1..]); }
      }
    }
  }

  lemma SameRest(e: Entry, a: seq<Entry>, b: seq<Entry>)
    ensures [e] + a == [e] + b <==> a == b
  {
    assert ([e] + a)[1..] == a && ([e] + b)[1..] == b;
  }

  /** A printed list of entries is read back unchanged from a fresh state exactly when it is printable: no text
      is too long, has a NUL, a carriage return or the end of the file in it, or is a single equals sign. */
  lemma RoundTrip(entries: seq<Entry>)
    ensures Parsed(Stream(PrintedAll(entries), None)) == (entries, true) <==> AllPrintable(entries)
  {
    hide AllPrintable, PrintedAll;
    ReadBack(entries, Stream(PrintedAll(entries), None));
  }

  // ---------- The reader ----------

  /** What cfg_get_token returns: a string, or NULL, or not at all (longjmp). */
  datatype Read = ReadToken(s: text) | ReadEnd | ReadError

  predicate Agrees(r: Read, spec: Result, now: Input) {
    match spec
    case Token(s, rest) => r == ReadToken(s) && now == rest
    case End(rest) => r == ReadEnd && now == rest
    case Error => r == ReadError
  }

  class ConfigReader {
    const buf: seq<code>
    // currp, as an index; endp is |buf|.
    var cur: nat
    // The character pushed back; 0 if there is none.
    var back: code
    var lastToken: Option<text>

    predicate Valid()
      reads `cur
    {
      cur <= |buf|
    }

    function Input(): Input
      requires Valid()
      reads `cur, `back
    {
      PushedBack(back, buf[cur..])
    }

    /** What is still to come: pushed back token, pushed back character, buffer. */
    function Pending(): Stream
      requires Valid()
      reads this
    {
      Stream(Input(), lastToken)
    }

    constructor (buf: seq<code>)
      ensures Valid() && this.buf == buf && Pending() == Stream(buf, None)
    {
      this.buf := buf;
      cur, back, lastToken := 0, NUL, None;
    }

    // `next`
    method NextChar() returns (c: code)
      requires Valid()
      modifies `cur, `back
      ensures Valid() && c == First(old(Input())) && Input() == Rest(old(Input())) && back == NUL
    {
      if back == NUL {
        if cur == |buf| {
          return EOF;
        }
        c := buf[cur];
        cur := cur + 1;
      } else {
        c := back;
        back := NUL;
      }
    }

    // `again`
    method Again(c: code)
      requires Valid() && back == NUL
      modifies `back
      ensures Valid() && Input() == PushedBack(c, old(Input()))
    {
      back := c;
    }

    // A comment; its '#' has been read.
    method SkipComment() returns (ended: bool)
      requires Valid() && back == NUL
      modifies `cur, `back
      ensures Valid() && back == NUL
      ensures ended <==> AfterComment(First(old(Input())), Rest(old(Input()))).Some?
      ensures ended ==> AfterComment(First(old(Input())), Rest(old(Input()))) == Some(Input())
      ensures !ended ==> Input() == CommentEnd(First(old(Input())), Rest(old(Input())))
    {
      var c := NextChar();
      ghost var (c0, p0) := (c, Input());
      while c != NEWLINE && c != RETURN
        invariant Valid() && back == NUL
        invariant AfterComment(c, Input()) == AfterComment(c0, p0)
        invariant CommentEnd(c, Input()) == CommentEnd(c0, p0)
        decreases |Input()|, if c == EOF then 0 else 1
      {
        if c == EOF {
          return false;
        }
        c := NextChar();
      }
      return true;
    }

    method SkipBlanks() returns (c: code)
      requires Valid()
      modifies `cur, `back
      ensures Valid() && back == NUL && !IsBlank(c)
      ensures Lead(c, Input()) == Lead(First(old(Input())), Rest(old(Input())))
      ensures |Input()| <= |old(Input())| && (c != EOF ==> |Input()| < |old(Input())|)
    {
      c := NextChar();
      ghost var (c0, p0) := (c, Input());
      while IsBlank(c)
        invariant Valid() && back == NUL
        invariant Lead(c, Input()) == Lead(c0, p0)
        invariant |Input()| <= |old(Input())| && (c != EOF ==> |Input()| < |old(Input())|)
        decreases |Input()|, if c == EOF then 0 else 1
      {
        c := NextChar();
      }
    }

    // Blanks and comments in front of a token.
    method SkipToToken() returns (c: code)
      requires Valid()
      modifies `cur, `back
      ensures Valid() && back == NUL && (c, Input()) == Lead(First(old(Input())), Rest(old(Input())))
    {
      while true
        invariant Valid()
        invariant Lead(First(Input()), Rest(Input())) == Lead(First(old(Input())), Rest(old(Input())))
        decreases |Input()|
      {
        c := SkipBlanks();
        if c == EOF || c == NUL || c != HASH {
          return;
        }
        var ended := SkipComment();
        if !ended {
          return EOF;
        }
      }
    }

    // In quotes, behind a backslash; None if the character stands for nothing.
    method ReadEscape() returns (c: Option<code>, failed: bool)
      requires Valid() && back == NUL
      modifies `cur, `back
      ensures Valid()
      ensures match Escape(old(Input()))
        case Misused => failed
        case Nothing(rest) => !failed && c == None && Input() == rest
        case Stands(e, rest) => !failed && c == Some(e) && Input() == rest
    {
      failed := false;
      var ch := NextChar();
      if ch == QUOTE || ch == BACKSLASH {
        c := Some(ch);
      } else if ch == NEWLINE || ch == RETURN {
        ch := NextChar();
        ghost var (c0, p0) := (ch, Input());
        while ch == SPACE || ch == TAB
          invariant Valid() && back == NUL && SkipSpaces(ch, Input()) == SkipSpaces(c0, p0)
          decreases |Input()|, if ch == EOF then 0 else 1
        {
          ch := NextChar();
        }
        if ch == NUL {
          return None, false;
        }
        Again(ch);
        c := Some(SPACE);
      } else if ch == LETTER_N {
        c := Some(NEWLINE);
      } else {
        return None, true;
      }
    }

    // A quoted string; the opening quote has been read.
    method ReadQuoted() returns (r: Read)
      requires Valid() && back == NUL
      modifies `cur, `back
      ensures Valid() && Agrees(r, Quoted(old(Input()), []), Input())
    {
      hide Escape;
      var here: text := [];
      while |here| < MAX_TOKEN
        invariant Valid() && |here| <= MAX_TOKEN
        invariant Quoted(Input(), here) == Quoted(old(Input()), [])
        decreases |Input()|
      {
        var c := NextChar();
        if c == EOF {
          return ReadError;
        }
        if c == QUOTE {
          return ReadToken(CString(here));
        }
        if c == BACKSLASH {
          var e, failed := ReadEscape();
          if failed {
            return ReadError;
          }
          if e == None {
            continue;
          }
          c := e.value;
        } else if c == NEWLINE || c == RETURN {
          return ReadError;
        }
        here := here + [c];
      }
      return ReadError;
    }

    // A token without quotes; its first character has been read.
    method ReadPlain(c0: code) returns (r: Read)
      requires Valid() && back == NUL
      modifies `cur, `back
      ensures Valid() && Agrees(r, Plain(c0, old(Input()), false, []), Input())
    {
      var c, here: text, escaped := c0, [], false;
      while |here| < MAX_TOKEN
        invariant Valid() && back == NUL && |here| <= MAX_TOKEN
        invariant Plain(c, Input(), escaped, here) == Plain(c0, old(Input()), false, [])
        decreases |Input()|, if c == EOF then 0 else 1
      {
        if escaped {
          if c == EOF {
            return ReadError;
          }
          if c != NEWLINE {
            here := here + [if c == TAB then SPACE else c];
          }
          escaped := false;
        } else {
          if EndsPlain(c) {
            Again(c);
            return ReadToken(CString(here));
          }
          escaped := c == BACKSLASH;
          if !escaped {
            here := here + [c];
          }
        }
        c := NextChar();
      }
      return ReadError;
    }

    /** `cfg_get_token`. */
    method GetNextToken() returns (r: Read)
      requires Valid()
      modifies `cur, `back, `lastToken
      ensures Valid() && Agrees(r, StreamToken(old(Pending())), Input())
      ensures lastToken.None?
    {
      if lastToken.Some? {
        var here := lastToken.value;
        lastToken := None;
        return ReadToken(here);
      }
      var c := SkipToToken();
      if c == EOF || c == NUL {
        return ReadEnd;
      }
      if c == EQUALS {
        return ReadToken([EQUALS]);
      }
      if c == QUOTE {
        r := ReadQuoted();
        return;
      }
      r := ReadPlain(c);
    }

    /** `cfg_next`. */
    method NextEntry() returns (r: Option<Entry>, failed: bool)
      requires Valid()
      modifies `cur, `back, `lastToken
      ensures Valid()
      ensures match Next(old(Pending()))
        case Failed => failed
        case Finished(s) => !failed && r.None? && Pending() == s
        case Got(entry, s) => !failed && r == Some(entry) && Pending() == s
    {
      r, failed := None, false;
      var item := GetNextToken();
      if item == ReadError {
        return None, true;
      }
      if item == ReadEnd {
        return;
      }
      if item.s == [EQUALS] {
        return None, true;
      }
      var token := GetNextToken();
      if token == ReadError {
        return None, true;
      }
      if token == ReadEnd {
        return Some(Entry(item.s, None)), false;
      }
      if token.s != [EQUALS] {
        lastToken := Some(token.s);
        return Some(Entry(item.s, None)), false;
      }
      var value := GetNextToken();
      if value == ReadError || value == ReadEnd || value.s == [EQUALS] {
        return None, true;
      }
      return Some(Entry(item.s, Some(value.s))), false;
    }

    /** The loop of `cfg_parse`. */
    method Parse() returns (entries: seq<Entry>, ok: bool)
      requires Valid()
      modifies `cur, `back, `lastToken
      ensures Valid() && (entries, ok) == Parsed(old(Pending()))
    {
      hide Next;
      entries := [];
      NothingBefore(Parsed(Pending()));
      while true
        invariant Valid()
        invariant Behind(entries, Parsed(Pending())) == Parsed(old(Pending()))
        decreases Left(Pending())
      {
        NextShortens(Pending());
        ParsedStep(entries, Pending());
        var entry, failed := NextEntry();
        if failed {
          return entries, false;
        }
        if entry == None {
          return entries, true;
        }
        entries := entries + [entry.value];
      }
    }
  }
}
