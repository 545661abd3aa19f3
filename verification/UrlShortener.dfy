/** Base-62 numerals: the codes the shortener hands out. */
module Base62 {
  import opened Prelude

  const DIGITS := "0123456789" + "abcdefghijklmnopqrstuvwxyz" + "ABCDEFGHIJKLMNOPQRSTUVWXYZ"

  /** Digit d of the alphabet, by arithmetic on character codes. */
  ghost function Digit(d: nat): char
    requires d < 62
  {
    if d < 10 then '0' + d as char
    else if d < 36 then 'a' + (d - 10) as char
    else 'A' + (d - 36) as char
  }

  lemma DigitTable(d: nat)
    requires d < 62
    ensures DIGITS[d] == Digit(d)
  {
  }

  /** The position of a digit in the alphabet, -1 for any other character. */
  ghost function DigitValue(c: char): int {
    if '0' <= c <= '9' then c as int - '0' as int
    else if 'a' <= c <= 'z' then c as int - 'a' as int + 10
    else if 'A' <= c <= 'Z' then c as int - 'A' as int + 36
    else -1
  }

  ghost predicate IsNumeral(s: string) {
    forall i :: 0 <= i < |s| ==> DigitValue(s[i]) >= 0
  }

  /** Reading a numeral: the independent meaning of a code. */
  ghost function Decode(s: string): int {
    if s == [] then 0 else 62 * Decode(s[..|s| - 1]) + DigitValue(s[|s| - 1])
  }

  ghost function Power62(k: nat): nat {
    if k == 0 then 1 else 62 * Power62(k - 1)
  }

  /** The digits of n, most significant first; nothing for 0. */
  ghost function DigitsOf(n: nat): string {
    if n == 0 then "" else DigitsOf(n / 62) + [Digit(n % 62)]
  }

  /** The code of an id. */
  ghost function Numeral(n: nat): string {
    if n == 0 then "0" else DigitsOf(n)
  }

  lemma DigitsRoundTrip(d: nat)
    requires d < 62
    ensures DigitValue(Digit(d)) == d
  {
  }

  lemma DigitIsUnique(c: char)
    requires DigitValue(c) >= 0
    ensures DigitValue(c) < 62 && Digit(DigitValue(c)) == c
    ensures DigitValue(c) == 0 <==> c == '0'
  {
  }

  lemma DecodeSnoc(s: string, c: char)
    ensures Decode(s + [c]) == 62 * Decode(s) + DigitValue(c)
  {
  }

  lemma DigitsOfSnoc(v: nat, d: nat)
    requires d < 62 && v + d > 0
    ensures DigitsOf(62 * v + d) == DigitsOf(v) + [Digit(d)]
  {
  }

  lemma NumeralSnoc(s: string, c: char)
    requires IsNumeral(s) && DigitValue(c) >= 0
    requires if s == [] then DigitValue(c) > 0 else s[0] != '0'
    ensures IsNumeral(s + [c]) && (s + [c])[0] != '0'
    ensures Decode(s + [c]) == 62 * Decode(s) + DigitValue(c)
  {
  }

  /** Encoding and decoding: a numeral without leading zero that reads as n. */
  lemma {:induction false} DecodeDigits(n: nat)
    ensures Decode(DigitsOf(n)) == n && IsNumeral(DigitsOf(n))
    ensures n > 0 ==> DigitsOf(n) != [] && DigitsOf(n)[0] != '0'
  {
    if n > 0 {
      var v, d := n / 62, n % 62;
      DecodeDigits(v);
      DigitsRoundTrip(d);
      NumeralSnoc(DigitsOf(v), Digit(d));
    }
  }

  /** Every numeral without leading zero is the one of the number it reads as. */
  lemma {:induction false} DigitsOfDecode(s: string)
    requires IsNumeral(s) && (s != [] ==> s[0] != '0')
    ensures Decode(s) >= |s| && DigitsOf(Decode(s)) == s
  {
    if s != [] {
      var init, c := s[..|s| - 1], s[|s| - 1];
      var v, d := Decode(init), DigitValue(c);
      assert s == init + [c];
      DecodeSnoc(init, c);
      DigitsOfDecode(init);
      DigitIsUnique(c);
      DigitsOfSnoc(v, d);
    }
  }

  lemma {:induction false} Length(n: nat, k: nat)
    requires n < Power62(k)
    ensures |DigitsOf(n)| <= k
  {
    if n > 0 {
      assert k > 0;
      Length(n / 62, k - 1);
    }
  }

  lemma ElevenDigits()
    ensures 0x8000_0000_0000_0000 <= Power62(11)
  {
  }

  /** The numeral of an id reads as the id, has no leading zero, and for an int64 at most 11 digits. */
  lemma NumeralFacts(n: nat)
    ensures Decode(Numeral(n)) == n && IsNumeral(Numeral(n)) && Numeral(n) != []
    ensures Numeral(n)[0] == '0' ==> n == 0
    ensures n < 0x8000_0000_0000_0000 ==> |Numeral(n)| <= 11
  {
    DecodeDigits(n);
    if n == 0 {
      assert "0"[..0] == "";
    } else if n < 0x8000_0000_0000_0000 {
      ElevenDigits();
      Length(n, 11);
    }
  }

  lemma DigitInFront(n: nat, rest: string)
    requires n > 0
    ensures DigitsOf(n) + rest == DigitsOf(n / 62) + ([Digit(n % 62)] + rest)
  {
  }

  /**
   The conversion as the source writes it: digits are put in front while n > 0. A negative id, which
   the shortener never uses, gives the empty string.
   */
  method ToBase62(id: int) returns (result: string)
    ensures id >= 0 ==> result == Numeral(id)
    ensures id < 0 ==> result == ""
  {
    if id == 0 {
      return "0";
    }
    result := "";
    var n := id;
    while n > 0
      invariant id >= 0 ==> n >= 0 && DigitsOf(n) + result == DigitsOf(id)
      invariant id < 0 ==> n == id && result == ""
    {
      DigitTable(n % 62);
      DigitInFront(n, result);
      result := [DIGITS[n % 62]] + result;
      n := n / 62;
    }
  }
}

/**
 The shortener under concurrent calls. Shorten is two critical sections, a lookup under the read
 lock and a second lookup with a possible insertion under the write lock; other calls may run in
 between. Ids stay below 2^63.
 */
module UrlShortener {
  import opened Prelude
  import opened Base62

  datatype State = State(counter: nat, long2code: map<string, string>, code2long: map<string, string>)

  /** The read-locked lookup. */
  ghost function Lookup(s: State, url: string): Option<string> {
    if url in s.long2code then Some(s.long2code[url]) else None
  }

  /** The write-locked section: look again, then take the next id. */
  ghost function Insert(s: State, url: string): (State, string) {
    if url in s.long2code then (s, s.long2code[url])
    else
      var code := Numeral(s.counter + 1);
      (State(s.counter + 1, s.long2code[url := code], s.code2long[code := url]), code)
  }

  ghost function Resolved(s: State, code: string): Option<string> {
    if code in s.code2long then Some(s.code2long[code]) else None
  }

  const EMPTY := State(0, map[], map[])

  ghost predicate Inverse<A, B>(m: map<A, B>, n: map<B, A>) {
    && (forall a <- m :: m[a] in n && n[m[a]] == a)
    && (forall b <- n :: n[b] in m && m[n[b]] == b)
  }

  /** The maps are inverse to each other, and the codes are the numerals of 1 .. counter. */
  ghost predicate Inv(s: State) {
    && Inverse(s.long2code, s.code2long)
    && (forall c :: c in s.code2long <==> IsCode(s.counter, c))
  }

  ghost predicate IsCode(counter: nat, c: string) {
    IsNumeral(c) && c != [] && c[0] != '0' && Decode(c) <= counter
  }

  /** A code is the numeral of what it reads as. */
  lemma CodeOfItsValue(c: string)
    requires IsNumeral(c) && c != [] && c[0] != '0'
    ensures Decode(c) >= 1 && c == Numeral(Decode(c))
  {
    DigitsOfDecode(c);
  }

  lemma CodesAreNumerals(counter: nat, c: string)
    ensures IsCode(counter, c) <==> exists id: nat :: 1 <= id <= counter && c == Numeral(id)
  {
    if IsCode(counter, c) {
      CodeOfItsValue(c);
    }
    forall id: nat | 1 <= id <= counter && c == Numeral(id) ensures IsCode(counter, c) {
      NumeralFacts(id);
    }
  }

  lemma SameValueSameCode(c: string, d: string)
    requires IsNumeral(c) && c != [] && c[0] != '0' && IsNumeral(d) && d != [] && d[0] != '0'
    requires Decode(c) == Decode(d)
    ensures c == d
  {
    CodeOfItsValue(c);
    CodeOfItsValue(d);
  }

  lemma NewCode(counter: nat, c: string)
    ensures IsCode(counter + 1, c) <==> IsCode(counter, c) || c == Numeral(counter + 1)
    ensures !IsCode(counter, Numeral(counter + 1))
  {
    var code := Numeral(counter + 1);
    NumeralFacts(counter + 1);
    if IsCode(counter + 1, c) && Decode(c) == counter + 1 {
      SameValueSameCode(c, code);
    }
  }

  lemma OneNewCode(counter: nat, code: string)
    requires code == Numeral(counter + 1)
    ensures !IsCode(counter, code)
    ensures forall c :: IsCode(counter + 1, c) <==> IsCode(counter, c) || c == code
  {
    NewCode(counter, code);
    forall c ensures IsCode(counter + 1, c) <==> IsCode(counter, c) || c == code {
      NewCode(counter, c);
    }
  }

  lemma InsertKeepsInv(s: State, url: string)
    requires Inv(s)
    ensures Inv(Insert(s, url).0)
  {
    if url !in s.long2code {
      var code := Numeral(s.counter + 1);
      OneNewCode(s.counter, code);
      InvExtended(s, url, code);
    }
  }

  lemma InvExtended(s: State, url: string, code: string)
    requires Inv(s) && url !in s.long2code && !IsCode(s.counter, code)
    requires forall c :: IsCode(s.counter + 1, c) <==> IsCode(s.counter, c) || c == code
    ensures Inv(State(s.counter + 1, s.long2code[url := code], s.code2long[code := url]))
  {
  }

  // ---- interleaved calls

  /** A Shorten call has just started, has missed in the read-locked lookup, or has returned. */
  datatype Call = Started(url: string) | Missed(url: string) | Returned(url: string, code: string)

  datatype System = System(s: State, calls: seq<Call>)

  datatype Step = Begin(url: string) | ReadLocked(c: nat) | WriteLocked(c: nat)

  ghost predicate Enabled(y: System, step: Step) {
    match step
    case Begin(_) => true
    case ReadLocked(c) => c < |y.calls| && y.calls[c].Started?
    case WriteLocked(c) => c < |y.calls| && y.calls[c].Missed?
  }

  ghost function Next(y: System, step: Step): System
    requires Enabled(y, step)
  {
    match step
    case Begin(url) => y.(calls := y.calls + [Started(url)])
    case ReadLocked(c) =>
      var url := y.calls[c].url;
      (match Lookup(y.s, url)
       case Some(code) => y.(calls := y.calls[c := Returned(url, code)])
       case None => y.(calls := y.calls[c := Missed(url)]))
    case WriteLocked(c) =>
      var url := y.calls[c].url;
      var (s, code) := Insert(y.s, url);
      System(s, y.calls[c := Returned(url, code)])
  }

  ghost function Exec(steps: seq<Step>): Option<System> {
    if steps == [] then Some(System(EMPTY, []))
    else
      match Exec(steps[..|steps| - 1])
      case None => None
      case Some(y) => if Enabled(y, steps[|steps| - 1]) then Some(Next(y, steps[|steps| - 1])) else None
  }

  ghost predicate SystemInv(y: System) {
    && Inv(y.s)
    && (forall c :: 0 <= c < |y.calls| && y.calls[c].Returned? ==>
          Lookup(y.s, y.calls[c].url) == Some(y.calls[c].code))
    && |y.s.long2code| == y.s.counter
  }

  lemma OneMore<A, B>(m: map<A, B>, a: A, b: B)
    requires a !in m
    ensures |m[a := b]| == |m| + 1
  {
  }

  lemma InsertFacts(s: State, url: string)
    requires Inv(s) && |s.long2code| == s.counter
    ensures var (t, code) := Insert(s, url);
      && Inv(t) && |t.long2code| == t.counter
      && Lookup(t, url) == Some(code)
      && forall u <- s.long2code :: Lookup(t, u) == Lookup(s, u)
  {
    InsertKeepsInv(s, url);
    if url !in s.long2code {
      OneMore(s.long2code, url, Numeral(s.counter + 1));
    }
  }

  lemma StepKeepsInv(y: System, step: Step)
    requires SystemInv(y) && Enabled(y, step)
    ensures SystemInv(Next(y, step))
    ensures forall u <- y.s.long2code :: Lookup(Next(y, step).s, u) == Lookup(y.s, u)
    ensures forall c :: 0 <= c < |y.calls| && y.calls[c].Returned? ==>
      c < |Next(y, step).calls| && Next(y, step).calls[c] == y.calls[c]
  {
    if step.WriteLocked? {
      InsertFacts(y.s, y.calls[step.c].url);
    }
  }

  lemma {:induction false} Invariant(steps: seq<Step>)
    ensures Exec(steps).Some? ==> SystemInv(Exec(steps).value)
  {
    if steps == [] {
      forall c ensures !IsCode(0, c) {
        if IsCode(0, c) {
          DigitsOfDecode(c);
        }
      }
    } else {
      Invariant(steps[..|steps| - 1]);
      if Exec(steps).Some? {
        StepKeepsInv(Exec(steps[..|steps| - 1]).value, steps[|steps| - 1]);
      }
    }
  }

  /**
   In every interleaving the two maps are mutually inverse, the codes are exactly the numerals of
   1 .. counter, and no id is ever wasted.
   */
  lemma MapsInverse(steps: seq<Step>, y: System)
    requires Exec(steps) == Some(y)
    ensures forall u, c :: Lookup(y.s, u) == Some(c) <==> Resolved(y.s, c) == Some(u)
    ensures forall c :: c in y.s.code2long <==> exists id: nat :: 1 <= id <= y.s.counter && c == Numeral(id)
    ensures y.s.counter == |y.s.long2code|
  {
    Invariant(steps);
    forall c ensures c in y.s.code2long <==> exists id: nat :: 1 <= id <= y.s.counter && c == Numeral(id) {
      CodesAreNumerals(y.s.counter, c);
    }
  }

  /** The URLs of the Shorten calls, in the order in which they began. */
  ghost function Urls(steps: seq<Step>): seq<string> {
    if steps == [] then []
    else
      var step := steps[|steps| - 1];
      Urls(steps[..|steps| - 1]) + (if step.Begin? then [step.url] else [])
  }

  lemma {:induction false} CallsAsBegun(steps: seq<Step>, y: System)
    requires Exec(steps) == Some(y)
    ensures |y.calls| == |Urls(steps)| && forall c :: 0 <= c < |y.calls| ==> y.calls[c].url == Urls(steps)[c]
  {
    if steps != [] {
      CallsAsBegun(steps[..|steps| - 1], Exec(steps[..|steps| - 1]).value);
    }
  }

  /** Call c has returned this code for this URL. */
  ghost predicate Gave(y: System, c: nat, url: string, code: string) {
    c < |y.calls| && y.calls[c] == Returned(url, code)
  }

  lemma StoredStep(y: System, step: Step, url: string)
    requires SystemInv(y) && Enabled(y, step) && url in Next(y, step).s.long2code
    requires url in y.s.long2code ==> exists c :: Gave(y, c, url, y.s.long2code[url])
    ensures exists c :: Gave(Next(y, step), c, url, Next(y, step).s.long2code[url])
  {
    var z := Next(y, step);
    if url in y.s.long2code {
      var c: nat :| Gave(y, c, url, y.s.long2code[url]);
      StepKeepsInv(y, step);
      assert Lookup(z.s, url) == Lookup(y.s, url);
      assert Gave(z, c, url, z.s.long2code[url]);
    } else {
      assert Gave(z, step.c, url, z.s.long2code[url]);
    }
  }

  /** Only what some Shorten call has returned is stored. */
  lemma {:induction false} StoredWasReturned(steps: seq<Step>, y: System, url: string)
    requires Exec(steps) == Some(y) && url in y.s.long2code
    ensures exists c :: Gave(y, c, url, y.s.long2code[url])
  {
    var before := steps[..|steps| - 1];
    var x := Exec(before).value;
    Invariant(before);
    if url in x.s.long2code {
      StoredWasReturned(before, x, url);
    }
    StoredStep(x, steps[|steps| - 1], url);
  }

  /** No call is ever stuck, and each returns with its own second step at the latest. */
  lemma CallsGoOn(y: System, c: nat)
    requires c < |y.calls| && !y.calls[c].Returned?
    ensures Enabled(y, ReadLocked(c)) || Enabled(y, WriteLocked(c))
    ensures Enabled(y, WriteLocked(c)) ==> Next(y, WriteLocked(c)).calls[c].Returned?
    ensures Enabled(y, ReadLocked(c)) ==> !Next(y, ReadLocked(c)).calls[c].Started?
  {
  }

  /** Two returned calls have the same code exactly if they had the same URL, however they interleaved. */
  lemma CodesIdentifyUrls(steps: seq<Step>, y: System, c: nat, d: nat)
    requires Exec(steps) == Some(y) && c < |y.calls| && d < |y.calls|
    requires y.calls[c].Returned? && y.calls[d].Returned?
    ensures |y.calls| == |Urls(steps)|
    ensures Urls(steps)[c] == Urls(steps)[d] <==> y.calls[c].code == y.calls[d].code
  {
    Invariant(steps);
    CallsAsBegun(steps, y);
  }

  /** A code that a call has returned resolves to its URL then and after any further steps. */
  lemma {:induction false} ResolvesForever(steps: seq<Step>, y: System, more: seq<Step>, z: System, c: nat)
    requires Exec(steps) == Some(y) && Exec(steps + more) == Some(z)
    requires c < |y.calls| && y.calls[c].Returned?
    ensures c < |Urls(steps)| && Resolved(z.s, y.calls[c].code) == Some(Urls(steps)[c])
    ensures c < |z.calls| && z.calls[c] == y.calls[c]
  {
    Invariant(steps + more);
    CallsAsBegun(steps, y);
    if more == [] {
      assert steps + more == steps;
    } else {
      var before := more[..|more| - 1];
      var all := steps + more;
      assert all[..|all| - 1] == steps + before;
      var x := Exec(steps + before).value;
      ResolvesForever(steps, y, before, x, c);
      Invariant(steps + before);
      StepKeepsInv(x, all[|all| - 1]);
    }
  }

  // ---- the shortener object

  class Shortener {
    var counter: nat
    var long2code: map<string, string>
    var code2long: map<string, string>

    ghost function View(): State
      reads this
    {
      State(counter, long2code, code2long)
    }

    constructor ()
      ensures View() == EMPTY
    {
      counter := 0;
      long2code := map[];
      code2long := map[];
    }

    /** The section of Shorten under the read lock. */
    method ShortenReadLocked(longUrl: string) returns (r: Option<string>)
      ensures r == Lookup(View(), longUrl)
    {
      if longUrl in long2code {
        return Some(long2code[longUrl]);
      }
      return None;
    }

    /** The section of Shorten under the write lock. */
    method ShortenWriteLocked(longUrl: string) returns (code: string)
      modifies this
      ensures (View(), code) == Insert(old(View()), longUrl)
    {
      if longUrl in long2code {
        return long2code[longUrl];
      }
      counter := counter + 1;
      code := ToBase62(counter);
      long2code := long2code[longUrl := code];
      code2long := code2long[code := longUrl];
    }

    /** Shorten when nothing comes in between. */
    method Shorten(longUrl: string) returns (code: string)
      requires Inv(View())
      modifies this
      ensures Inv(View()) && (View(), code) == Insert(old(View()), longUrl)
      ensures Lookup(View(), longUrl) == Some(code) && Resolved(View(), code) == Some(longUrl)
      ensures forall u <- old(View()).long2code :: Lookup(View(), u) == Lookup(old(View()), u)
    {
      InsertKeepsInv(View(), longUrl);
      var hit := ShortenReadLocked(longUrl);
      match hit
      case Some(c) => code := c;
      case None => code := ShortenWriteLocked(longUrl);
    }

    /** The error of the source is the absent result. */
    method Resolve(code: string) returns (r: Option<string>)
      ensures r == Resolved(View(), code)
    {
      if code in code2long {
        return Some(code2long[code]);
      }
      return None;
    }
  }
}
