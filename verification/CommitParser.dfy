/**
 The parser for Conventional Commits headers, a printer for the records it returns, and the
 grammar it accepts. What counts as white space is a parameter.
 */
module CommitParser {
  import opened Prelude

  datatype CommitInfo = CommitInfo(kind: string, scope: string, description: string, breaking: bool)

  const VALID_TYPES: set<string> :=
    {"feat", "fix", "docs", "style", "refactor", "perf", "test", "chore", "ci"}

  // ---- the string functions the parser uses

  predicate Occurs(s: string, pat: string, i: nat) {
    i + |pat| <= |s| && s[i..i + |pat|] == pat
  }

  /** First position from i on at which `pat` occurs, or -1. */
  function IndexFrom(s: string, pat: string, i: nat): (r: int)
    requires i <= |s|
    ensures r == -1 || (i <= r && Occurs(s, pat, r))
    ensures forall j :: i <= j < (if r < 0 then |s| + 1 else r) ==> !Occurs(s, pat, j)
    decreases |s| - i
  {
    if Occurs(s, pat, i) then i
    else if i == |s| then -1
    else IndexFrom(s, pat, i + 1)
  }

  function Index(s: string, pat: string): int {
    IndexFrom(s, pat, 0)
  }

  lemma IndexUnique(s: string, pat: string, r: nat)
    requires Occurs(s, pat, r) && forall j :: 0 <= j < r ==> !Occurs(s, pat, j)
    ensures Index(s, pat) == r
  {
  }

  lemma OccursChar(s: string, c: char, j: nat)
    ensures Occurs(s, [c], j) <==> j < |s| && s[j] == c
  {
  }

  /** `i` is the first position of `c`, or negative if there is none. */
  ghost predicate FirstAt(s: string, c: char, i: int) {
    && (i < 0 ==> c !in s)
    && (i >= 0 ==> i < |s| && s[i] == c && forall j :: 0 <= j < i ==> s[j] != c)
  }

  lemma IndexOfChar(s: string, c: char)
    ensures FirstAt(s, c, Index(s, [c]))
  {
    var i := Index(s, [c]);
    forall j | 0 <= j < |s| ensures Occurs(s, [c], j) <==> s[j] == c {
      OccursChar(s, c, j);
    }
    if i >= 0 {
      OccursChar(s, c, i);
    }
  }

  lemma IndexOfFirstChar(s: string, c: char, i: nat)
    requires i < |s| && s[i] == c && forall j :: 0 <= j < i ==> s[j] != c
    ensures Index(s, [c]) == i
  {
    forall j | 0 <= j <= i ensures Occurs(s, [c], j) <==> s[j] == c {
      OccursChar(s, c, j);
    }
    IndexUnique(s, [c], i);
  }

  function TrimLeft(space: char -> bool, s: string): string {
    if s != [] && space(s[0]) then TrimLeft(space, s[1..]) else s
  }

  function TrimRight(space: char -> bool, s: string): string {
    if s != [] && space(s[|s| - 1]) then TrimRight(space, s[..|s| - 1]) else s
  }

  function Trim(space: char -> bool, s: string): string {
    TrimRight(space, TrimLeft(space, s))
  }

  lemma {:induction false} TrimLeftEnds(space: char -> bool, s: string)
    ensures TrimLeft(space, s) != [] ==> !space(TrimLeft(space, s)[0])
  {
    if s != [] && space(s[0]) {
      TrimLeftEnds(space, s[1..]);
    }
  }

  lemma {:induction false} TrimRightEnds(space: char -> bool, s: string)
    ensures var r := TrimRight(space, s); r <= s && (r != [] ==> !space(r[|r| - 1]))
  {
    if s != [] && space(s[|s| - 1]) {
      TrimRightEnds(space, s[..|s| - 1]);
    }
  }

  ghost predicate AllSpace(space: char -> bool, s: string) {
    forall i :: 0 <= i < |s| ==> space(s[i])
  }

  lemma {:induction false} TrimLeftRest(space: char -> bool, s: string) returns (front: string)
    ensures s == front + TrimLeft(space, s) && AllSpace(space, front)
  {
    if s != [] && space(s[0]) {
      var rest := TrimLeftRest(space, s[1..]);
      front := [s[0]] + rest;
    } else {
      front := "";
    }
  }

  lemma {:induction false} TrimRightRest(space: char -> bool, s: string) returns (back: string)
    ensures s == TrimRight(space, s) + back && AllSpace(space, back)
  {
    if s != [] && space(s[|s| - 1]) {
      var rest := TrimRightRest(space, s[..|s| - 1]);
      back := rest + [s[|s| - 1]];
    } else {
      back := "";
    }
  }

  /** Trimming takes away white space at both ends, all of it and nothing else. */
  lemma TrimExactly(space: char -> bool, s: string) returns (front: string, back: string)
    ensures s == front + Trim(space, s) + back && AllSpace(space, front) && AllSpace(space, back)
    ensures Trim(space, s) != "" ==> !space(Trim(space, s)[0]) && !space(Trim(space, s)[|Trim(space, s)| - 1])
  {
    var left := TrimLeft(space, s);
    front := TrimLeftRest(space, s);
    back := TrimRightRest(space, left);
    assert front + (TrimRight(space, left) + back) == front + TrimRight(space, left) + back;
    TrimLeftEnds(space, s);
    TrimRightEnds(space, left);
  }

  /** Trimming what has been trimmed changes nothing. */
  lemma TrimTwice(space: char -> bool, s: string)
    ensures Trim(space, Trim(space, s)) == Trim(space, s)
  {
    TrimLeftEnds(space, s);
    TrimRightEnds(space, TrimLeft(space, s));
  }

  // ---- the parser

  /** Type and scope, given the first "(" and the first ")"; a scope needs them in this order. */
  function CutPrefix(prefix: string, open: int, close: int): Option<(string, string)>
    requires open < |prefix| && close < |prefix|
  {
    if open < 0 then Some((prefix, ""))
    else if close <= open then None  // never equal: no character is both
    else Some((prefix[..open], prefix[open + 1..close]))
  }

  function ParsePrefix(prefix: string): Option<(string, string)> {
    CutPrefix(prefix, Index(prefix, "("), Index(prefix, ")"))
  }

  /** The header before the colon: a final "!" marks a breaking change. */
  function ParseHead(head: string): Option<(string, string, bool)> {
    var breaking := head != [] && head[|head| - 1] == '!';
    WithBreaking(ParsePrefix(if breaking then head[..|head| - 1] else head), breaking)
  }

  function WithBreaking(parts: Option<(string, string)>, breaking: bool): Option<(string, string, bool)> {
    match parts
    case None => None
    case Some((kind, scope)) => Some((kind, scope, breaking))
  }

  /** The record, if the head could be parsed and its type is listed. */
  function Filled(parts: Option<(string, string, bool)>, desc: string): Option<CommitInfo> {
    match parts
    case None => None
    case Some((kind, scope, breaking)) =>
      if kind in VALID_TYPES then Some(CommitInfo(kind, scope, desc, breaking)) else None
  }

  function Parse(space: char -> bool, msg: string): Option<CommitInfo> {
    var colon := Index(msg, ": ");
    if colon < 0 then None
    else
      var desc := Trim(space, msg[colon + 2..]);
      if desc == "" then None else Filled(ParseHead(msg[..colon]), desc)
  }

  /** The parser as the source writes it: `prefix` is cut down step by step while the record fills. */
  method ParseCommit(space: char -> bool, msg: string) returns (r: Option<CommitInfo>)
    ensures r == Parse(space, msg)
  {
    var colonIdx := Index(msg, ": ");
    if colonIdx < 0 {
      return None;
    }

    var prefix := msg[..colonIdx];
    var desc := Trim(space, msg[colonIdx + 2..]);
    if desc == "" {
      return None;
    }

    r := FillFromPrefix(prefix, desc);
  }

  /** The part of ParseCommit after the split at the colon. */
  method FillFromPrefix(head: string, desc: string) returns (r: Option<CommitInfo>)
    ensures r == Filled(ParseHead(head), desc)
  {
    var prefix := head;
    var info := CommitInfo("", "", desc, false);

    if prefix != [] && prefix[|prefix| - 1] == '!' {
      info := info.(breaking := true);
      prefix := prefix[..|prefix| - 1];
    }
    assert ParseHead(head) == WithBreaking(ParsePrefix(prefix), info.breaking);

    var parenOpen := Index(prefix, "(");
    if parenOpen >= 0 {
      var parenClose := Index(prefix, ")");
      if parenClose < 0 || parenClose < parenOpen {
        return None;
      }
      info := info.(kind := prefix[..parenOpen]);
      info := info.(scope := prefix[parenOpen + 1..parenClose]);
    } else {
      info := info.(kind := prefix);
    }

    if info.kind !in VALID_TYPES {
      return None;
    }
    return Some(info);
  }

  // ---- the grammar it accepts

  ghost function Bang(breaking: bool): string {
    if breaking then "!" else ""
  }

  /** The header before the colon; `junk` is whatever follows the closing parenthesis. */
  ghost function Head(kind: string, scope: string, breaking: bool, scoped: bool, junk: string): string {
    kind + (if scoped then "(" + scope + ")" + junk else "") + Bang(breaking)
  }

  ghost predicate HeadOf(head: string, kind: string, scope: string, breaking: bool, scoped: bool, junk: string) {
    && head == Head(kind, scope, breaking, scoped, junk)
    && ')' !in scope
    && (!scoped ==> scope == "" && junk == "")
    && (!breaking && head != "" ==> head[|head| - 1] != '!')
  }

  ghost predicate NoColonSpace(s: string) {
    forall j :: 0 <= j < |s| - 1 ==> !(s[j] == ':' && s[j + 1] == ' ')
  }

  /**
   msg is type, optional "(scope)" with anything up to the colon after it, "!" if breaking, then the
   first ": " of the message, then text that trims to the description.
   */
  ghost predicate Derives(
    space: char -> bool, msg: string, info: CommitInfo, head: string, scoped: bool, junk: string, body: string)
  {
    && msg == head + ": " + body
    && NoColonSpace(head)
    && HeadOf(head, info.kind, info.scope, info.breaking, scoped, junk)
    && info.kind in VALID_TYPES
    && Trim(space, body) == info.description != ""
  }

  lemma ListedTypes(kind: string)
    ensures kind in VALID_TYPES <==>
      || kind == "feat" || kind == "fix" || kind == "docs" || kind == "style" || kind == "refactor"
      || kind == "perf" || kind == "test" || kind == "chore" || kind == "ci"
  {
  }

  lemma ValidTypeLetters(kind: string)
    requires kind in VALID_TYPES
    ensures kind != "" && forall i :: 0 <= i < |kind| ==> 'a' <= kind[i] <= 'z'
  {
  }

  /** In head + ": " + body the first ": " is the one after head exactly if head has none. */
  lemma FirstColon(head: string, body: string)
    ensures Index(head + ": " + body, ": ") == |head| <==> NoColonSpace(head)
  {
    var msg := head + ": " + body;
    assert forall j :: 0 <= j < |head| ==> msg[j] == head[j];
    assert msg[|head|] == ':' && msg[|head| + 1] == ' ';
    forall j | 0 <= j < |head| ensures Occurs(msg, ": ", j) <==> j + 1 < |head| && head[j] == ':' && head[j + 1] == ' ' {
    }
    if NoColonSpace(head) {
      IndexUnique(msg, ": ", |head|);
    }
  }

  /** The message before and after the first ": ". */
  lemma AtFirstColon(msg: string)
    ensures var i := Index(msg, ": ");
      i >= 0 ==> i + 2 <= |msg| && msg == msg[..i] + ": " + msg[i + 2..] && NoColonSpace(msg[..i])
  {
    var i := Index(msg, ": ");
    if i >= 0 {
      assert msg == msg[..i] + msg[i..i + 2] + msg[i + 2..];
      FirstColon(msg[..i], msg[i + 2..]);
    }
  }

  lemma ScopedPrefix(kind: string, scope: string, junk: string)
    requires '(' !in kind && ')' !in kind && ')' !in scope
    ensures ParsePrefix(kind + "(" + scope + ")" + junk) == Some((kind, scope))
  {
    var p := kind + "(" + scope + ")" + junk;
    assert forall j :: 0 <= j < |kind| ==> p[j] == kind[j];
    assert forall j :: 0 <= j < |scope| ==> p[|kind| + 1 + j] == scope[j];
    var close := |kind| + 1 + |scope|;
    assert p[|kind|] == '(' && p[close] == ')';
    forall j | 0 <= j < close ensures p[j] != ')' {
      assert j > |kind| ==> p[j] == scope[j - |kind| - 1];
    }
    IndexOfFirstChar(p, '(', |kind|);
    IndexOfFirstChar(p, ')', close);
    assert p[..|kind|] == kind && p[|kind| + 1..close] == scope;
  }

  /** The prefix is the type, followed by "(scope)" and `junk` if it is scoped. */
  ghost predicate Parts(prefix: string, kind: string, scope: string, scoped: bool, junk: string) {
    && ')' !in scope
    && prefix == kind + (if scoped then "(" + scope + ")" + junk else "")
    && (!scoped ==> scope == "" && junk == "")
  }

  /** Conversely, this is all that ParsePrefix takes. */
  lemma PrefixParts(prefix: string) returns (scoped: bool, junk: string)
    requires ParsePrefix(prefix).Some?
    ensures Parts(prefix, ParsePrefix(prefix).value.0, ParsePrefix(prefix).value.1, scoped, junk)
  {
    IndexOfChar(prefix, '(');
    IndexOfChar(prefix, ')');
    scoped, junk := CutParts(prefix, Index(prefix, "("), Index(prefix, ")"));
  }

  lemma CutParts(prefix: string, open: int, close: int) returns (scoped: bool, junk: string)
    requires FirstAt(prefix, '(', open) && FirstAt(prefix, ')', close) && CutPrefix(prefix, open, close).Some?
    ensures var (kind, scope) := CutPrefix(prefix, open, close).value; Parts(prefix, kind, scope, scoped, junk)
  {
    scoped := open >= 0;
    if scoped {
      junk := prefix[close + 1..];
    } else {
      junk := "";
    }
  }

  lemma HeadParses(head: string, kind: string, scope: string, breaking: bool, scoped: bool, junk: string)
    requires HeadOf(head, kind, scope, breaking, scoped, junk) && '(' !in kind && ')' !in kind
    ensures ParseHead(head) == Some((kind, scope, breaking))
  {
    var prefix := kind + (if scoped then "(" + scope + ")" + junk else "");
    assert head == prefix + Bang(breaking);
    if breaking {
      assert head[|head| - 1] == '!' && head[..|head| - 1] == prefix;
    } else {
      assert head == prefix;
    }
    if scoped {
      assert prefix == kind + "(" + scope + ")" + junk;
      ScopedPrefix(kind, scope, junk);
    } else {
      assert prefix == kind;
    }
  }

  lemma ParsedHead(head: string) returns (scoped: bool, junk: string)
    requires ParseHead(head).Some?
    ensures var (kind, scope, breaking) := ParseHead(head).value;
      HeadOf(head, kind, scope, breaking, scoped, junk)
  {
    var breaking := head != [] && head[|head| - 1] == '!';
    var prefix := if breaking then head[..|head| - 1] else head;
    scoped, junk := PrefixParts(prefix);
    var (kind, scope) := ParsePrefix(prefix).value;
    PartsMakeHead(head, prefix, kind, scope, breaking, scoped, junk);
  }

  lemma PartsMakeHead(
    head: string, prefix: string, kind: string, scope: string, breaking: bool, scoped: bool, junk: string)
    requires Parts(prefix, kind, scope, scoped, junk)
    requires if breaking then head != [] && head[|head| - 1] == '!' && prefix == head[..|head| - 1] else prefix == head
    requires !breaking && head != [] ==> head[|head| - 1] != '!'
    ensures HeadOf(head, kind, scope, breaking, scoped, junk)
  {
  }

  /** What the grammar derives, the parser accepts with just that record. */
  lemma DerivesParses(
    space: char -> bool, msg: string, info: CommitInfo, head: string, scoped: bool, junk: string, body: string)
    requires Derives(space, msg, info, head, scoped, junk, body)
    ensures Parse(space, msg) == Some(info)
  {
    FirstColon(head, body);
    assert msg[..|head|] == head && msg[|head| + 2..] == body;
    ValidTypeLetters(info.kind);
    HeadParses(head, info.kind, info.scope, info.breaking, scoped, junk);
  }

  /** What the parser accepts, the grammar derives. */
  lemma ParsesDerives(space: char -> bool, msg: string) returns (head: string, scoped: bool, junk: string, body: string)
    requires Parse(space, msg).Some?
    ensures Derives(space, msg, Parse(space, msg).value, head, scoped, junk, body)
  {
    var colon := Index(msg, ": ");
    head, body := msg[..colon], msg[colon + 2..];
    AtFirstColon(msg);
    scoped, junk := ParsedHead(head);
  }

  /** The accepted messages are exactly those of the grammar, and it determines the record. */
  lemma AcceptsExactlyTheGrammar(space: char -> bool, msg: string, info: CommitInfo)
    ensures Parse(space, msg) == Some(info) <==>
      exists head, scoped, junk, body :: Derives(space, msg, info, head, scoped, junk, body)
  {
    if Parse(space, msg) == Some(info) {
      var head, scoped, junk, body := ParsesDerives(space, msg);
    }
    forall head, scoped, junk, body | Derives(space, msg, info, head, scoped, junk, body)
      ensures Parse(space, msg) == Some(info)
    {
      DerivesParses(space, msg, info, head, scoped, junk, body);
    }
  }

  // ---- printing

  ghost function Print(info: CommitInfo): string {
    info.kind + (if info.scope == "" then "" else "(" + info.scope + ")") + Bang(info.breaking) + ": " + info.description
  }

  /** The records that have a header: a listed type, a scope that can be closed, a trimmed description. */
  ghost predicate Printable(space: char -> bool, info: CommitInfo) {
    && info.kind in VALID_TYPES
    && ')' !in info.scope
    && NoColonSpace(info.scope)
    && Trim(space, info.description) == info.description != ""
  }

  /** Printing any printable record and parsing it gives the record back. */
  lemma PrintParse(space: char -> bool, info: CommitInfo)
    requires Printable(space, info)
    ensures Parse(space, Print(info)) == Some(info)
  {
    var scoped := info.scope != "";
    var head := Head(info.kind, info.scope, info.breaking, scoped, "");
    ValidTypeLetters(info.kind);
    DerivesParses(space, Print(info), info, head, scoped, "", info.description);
  }

  lemma ScopeHasNoColonSpace(head: string, kind: string, scope: string, breaking: bool, scoped: bool, junk: string)
    requires HeadOf(head, kind, scope, breaking, scoped, junk) && NoColonSpace(head)
    ensures NoColonSpace(scope)
  {
    if scoped {
      assert forall j :: 0 <= j < |scope| ==> head[|kind| + 1 + j] == scope[j];
    }
  }

  /** Every record the parser returns is printable, so accepted messages have a normal form. */
  lemma ParsePrintParse(space: char -> bool, msg: string)
    requires Parse(space, msg).Some?
    ensures Printable(space, Parse(space, msg).value)
    ensures Parse(space, Print(Parse(space, msg).value)) == Parse(space, msg)
  {
    var info := Parse(space, msg).value;
    var head, scoped, junk, body := ParsesDerives(space, msg);
    TrimTwice(space, body);
    ScopeHasNoColonSpace(head, info.kind, info.scope, info.breaking, scoped, junk);
    PrintParse(space, info);
  }
}
