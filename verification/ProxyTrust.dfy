/**
  Trusted proxies: what number an address stands for (section 2.2 of RFC 4291) and when it lies in a trusted
  range (section 3.1 of RFC 4632). Whether a string is an address at all is not part of this model.
 */
module ProxyTrust {
  import opened Wrappers

  // ---------------------------------------------------------------------------------------------
  // Numerals
  // ---------------------------------------------------------------------------------------------

  function DigitValue(c: char): (v: Option<nat>)
  {
    if '0' <= c <= '9' then Some((c - '0') as nat)
    else if 'a' <= c <= 'f' then Some((c - 'a') as nat + 10)
    else if 'A' <= c <= 'F' then Some((c - 'A') as nat + 10)
    else None
  }

  predicate IsDigit(c: char, radix: nat) { DigitValue(c).Some? && DigitValue(c).value < radix }

  predicate IsNumeral(s: string, radix: nat) { s != "" && forall i | 0 <= i < |s| :: IsDigit(s[i], radix) }

  function ValueOf(s: string, radix: nat): nat {
    if s == "" then 0
    else
      var digit := DigitValue(s[|s| - 1]);
      ValueOf(s[..|s| - 1], radix) * radix + if digit.Some? then digit.value else 0
  }

  /** `toString(radix)` */
  function Numeral(n: nat, radix: nat): (s: string)
    requires 2 <= radix <= 16
    decreases n
  {
    var digit := ["0123456789abcdef"[n % radix]];
    if n < radix then digit else Shrinks(n, radix); Numeral(n / radix, radix) + digit
  }

  lemma ProductAtLeastDouble(q: nat, radix: nat)
    requires radix >= 2
    ensures q * radix >= q + q
  {
    assert q * (radix - 2) >= 0;
  }

  lemma Shrinks(n: nat, radix: nat)
    requires 2 <= radix <= n
    ensures n / radix < n
  {
    DivMod(n, radix);
    ProductAtLeastDouble(n / radix, radix);
  }

  lemma DivMod(n: nat, radix: nat)
    requires radix > 0
    ensures n / radix * radix + n % radix == n && n % radix < radix
  {
  }

  lemma DigitRoundTrip(d: nat)
    requires d < 16
    ensures DigitValue("0123456789abcdef"[d]) == Some(d)
    ensures 'A' <= "0123456789abcdef"[d] <= 'Z' ==> false
  {
  }

  lemma {:induction false} NumeralRoundTrip(n: nat, radix: nat)
    requires 2 <= radix <= 16
    ensures IsNumeral(Numeral(n, radix), radix) && ValueOf(Numeral(n, radix), radix) == n
    decreases n
  {
    hide ValueOf, DigitValue;
    DivMod(n, radix);
    DigitRoundTrip(n % radix);
    var c := "0123456789abcdef"[n % radix];
    if n < radix {
      assert Numeral(n, radix) == [c];
      ValueOfLast("", c, radix);
      NoValue(radix);
      assert "" + [c] == [c];
    } else {
      Shrinks(n, radix);
      var front := Numeral(n / radix, radix);
      NumeralRoundTrip(n / radix, radix);
      assert Numeral(n, radix) == front + [c];
      hide Numeral;
      ValueOfLast(front, c, radix);
    }
  }

  lemma NoValue(radix: nat)
    ensures ValueOf("", radix) == 0
  {
  }

  lemma ValueOfLast(front: string, c: char, radix: nat)
    requires DigitValue(c).Some?
    ensures ValueOf(front + [c], radix) == ValueOf(front, radix) * radix + DigitValue(c).value
  {
    assert (front + [c])[..|front|] == front;
  }

  function Power(radix: nat, k: nat): nat { if k == 0 then 1 else Power(radix, k - 1) * radix }

  lemma {:induction false} NumeralLength(n: nat, k: nat)
    requires k > 0 && n < Power(16, k)
    ensures |Numeral(n, 16)| <= k
  {
    if n >= 16 {
      assert k > 1 by {
        assert Power(16, 1) == Power(16, 0) * 16 == 16;
      }
      assert n / 16 < Power(16, k - 1);
      NumeralLength(n / 16, k - 1);
    }
  }

  // ---------------------------------------------------------------------------------------------
  // Splitting
  // ---------------------------------------------------------------------------------------------

  function Split(s: string, c: char): (parts: seq<string>)
    ensures parts != []
  {
    if s == "" then [""]
    else
      var rest := Split(s[1..], c);
      if s[0] == c then [""] + rest else [[s[0]] + rest[0]] + rest[1..]
  }

  function SplitDouble(s: string): (parts: seq<string>)
    ensures parts != []
  {
    if |s| < 2 then [s]
    else if s[0] == ':' && s[1] == ':' then [""] + SplitDouble(s[2..])
    else
      var rest := SplitDouble(s[1..]);
      [[s[0]] + rest[0]] + rest[1..]
  }

  function Join(parts: seq<string>, c: char): string {
    if parts == [] then "" else if |parts| == 1 then parts[0] else parts[0] + [c] + Join(parts[1..], c)
  }

  lemma {:induction false} SplitHead(head: string, tail: string, c: char)
    requires c !in head
    ensures Split(head, c) == [head]
    ensures Split(head + [c] + tail, c) == [head] + Split(tail, c)
  {
    var all := head + [c] + tail;
    if head == "" {
      assert all[1..] == tail;
    } else {
      SplitHead(head[1..], tail, c);
      assert all[1..] == head[1..] + [c] + tail;
      assert head == [head[0]] + head[1..];
    }
  }

  /** Splitting undoes joining. */
  lemma {:induction false} SplitJoin(parts: seq<string>, c: char)
    requires parts != [] && forall p | p in parts :: c !in p
    ensures Split(Join(parts, c), c) == parts
  {
    assert parts[0] in parts;
    if |parts| == 1 {
      SplitHead(parts[0], "", c);
    } else {
      SplitHead(parts[0], Join(parts[1..], c), c);
      SplitJoin(parts[1..], c);
    }
  }

  /** No colon follows another, and none ends the string. */
  predicate Separated(s: string) {
    && (s != "" ==> s[|s| - 1] != ':')
    && forall i | 0 <= i < |s| - 1 :: !(s[i] == ':' && s[i + 1] == ':')
  }

  lemma {:induction false} SplitDoubleNone(s: string)
    requires Separated(s)
    ensures SplitDouble(s) == [s]
  {
    if s != "" {
      SplitDoubleNone(s[1..]);
      assert s == [s[0]] + s[1..];
    }
  }

  lemma {:induction false} SplitDoubleOnce(a: string, b: string)
    requires Separated(a) && Separated(b)
    ensures SplitDouble(a + "::" + b) == [a, b]
  {
    if a == "" {
      assert (a + "::" + b)[2..] == b;
      SplitDoubleNone(b);
    } else {
      hide SplitDouble;
      SplitDoubleOnce(a[1..], b);
      assert a + "::" + b == [a[0]] + (a[1..] + "::" + b);
      assert |a| == 1 ==> a[0] != ':';
      assert a == [a[0]] + a[1..];
    }
  }

  // ---------------------------------------------------------------------------------------------
  // Addresses
  // ---------------------------------------------------------------------------------------------

  /** The parts read one after the other, each shifted in below the ones before. */
  function Fold(parts: seq<string>, radix: nat, width: nat): nat {
    if parts == [] then 0
    else Fold(parts[..|parts| - 1], radix, width) * width + ValueOf(parts[|parts| - 1], radix)
  }

  /** `ipv4ToBigInt`, on octets below 256, where shifting and or-ing is multiplying and adding. */
  function Ipv4ToInt(ip: string): nat { Fold(Split(ip, '.'), 10, 256) }

  function LowerChar(c: char): char { if 'A' <= c <= 'Z' then ((c - 'A') + 'a') as char else c }

  function Lower(s: string): (r: string)
  {
    seq(|s|, i requires 0 <= i < |s| => LowerChar(s[i]))
  }

  /** How many decimal digits end the string. */
  function DigitsAtEnd(s: string): (n: nat)
  {
    if s != "" && IsDigit(s[|s| - 1], 10) then DigitsAtEnd(s[..|s| - 1]) + 1 else 0
  }

  /** Where an IPv4 tail begins: four decimal numerals and three dots at the end of the string. */
  function TailLength(ip: string): nat {
    var parts := Split(ip, '.');
    var n := |parts|;
    if n < 4 then 0
    else if !(IsNumeral(parts[n - 3], 10) && IsNumeral(parts[n - 2], 10) && IsNumeral(parts[n - 1], 10)) then 0
    else
      var digits := DigitsAtEnd(parts[n - 4]);
      if digits == 0 then 0 else digits + 3 + |parts[n - 3]| + |parts[n - 2]| + |parts[n - 1]|
  }

  function TailWords(value: nat): (string, string) {
    (Numeral(value / 65536 % 65536, 16), Numeral(value % 65536, 16))
  }

  function Untailed(ip: string): string {
    var length := TailLength(ip);
    if length == 0 || length > |ip| then ip
    else
      var (high, low) := TailWords(Ipv4ToInt(ip[|ip| - length..]));
      ip[..|ip| - length] + high + ":" + low
  }

  predicate IsGroup(part: string) { IsNumeral(part, 16) && |part| <= 4 }

  predicate AllGroups(parts: seq<string>) { forall p | p in parts :: IsGroup(p) }

  function Groups(half: string): seq<string> { if half == "" then [] else Split(half, ':') }

  function Zeros(n: nat): (r: seq<string>)
  {
    seq(n, _ => "0")
  }

  /** The eight groups of the halves, the gap filled with zeros; `None` where the program throws. */
  function Expanded(halves: seq<string>): (parts: Option<seq<string>>)
    requires halves != []
    ensures parts.Some? ==> |parts.value| == 8 && AllGroups(parts.value)
  {
    if |halves| > 2 then None
    else
      var left, right := Groups(halves[0]), if |halves| == 2 then Groups(halves[1]) else [];
      var missing := 8 - |left| - |right|;
      if missing < 0 || (|halves| == 1 && missing != 0) then None
      else
        var parts := left + Zeros(missing) + right;
        if !AllGroups(parts) then None else Some(parts)
  }

  /** `ipv6ToBigInt`; `None` where it throws. */
  function Ipv6ToInt(input: string): Option<nat> {
    var parts := Expanded(SplitDouble(Untailed(Lower(input))));
    if parts.None? then None else Some(Fold(parts.value, 16, 65536))
  }

  // ---------------------------------------------------------------------------------------------
  // Spellings
  // ---------------------------------------------------------------------------------------------

  datatype V4 = V4(a: nat, b: nat, c: nat, d: nat)

  predicate ValidV4(v: V4) { v.a < 256 && v.b < 256 && v.c < 256 && v.d < 256 }

  function Dotted(v: V4): string {
    Numeral(v.a, 10) + "." + (Numeral(v.b, 10) + "." + (Numeral(v.c, 10) + "." + Numeral(v.d, 10)))
  }

  function V4Value(v: V4): nat { ((v.a * 256 + v.b) * 256 + v.c) * 256 + v.d }

  /** Groups, then, if `gap`, two colons and more groups, and possibly an IPv4 tail. */
  datatype Spelling = Spelling(left: seq<string>, gap: bool, right: seq<string>, tail: Option<V4>)

  function Count(sp: Spelling): nat { |sp.left| + |sp.right| + if sp.tail.Some? then 2 else 0 }

  predicate ValidSpelling(sp: Spelling) {
    && AllGroups(sp.left) && AllGroups(sp.right)
    && (if sp.gap then Count(sp) <= 7 else sp.right == [] && Count(sp) == 8)
    && (sp.tail.Some? ==> ValidV4(sp.tail.value))
  }

  function Plain(left: seq<string>, gap: bool, right: seq<string>): string {
    Join(left, ':') + if gap then "::" + Join(right, ':') else ""
  }

  /** The spelling with `more` at its end. */
  function Extended(sp: Spelling, more: seq<string>): string {
    if sp.gap then Plain(sp.left, true, sp.right + more) else Plain(sp.left + more, false, sp.right)
  }

  function Text(sp: Spelling): string { Extended(sp, if sp.tail.Some? then [Dotted(sp.tail.value)] else []) }

  function Values(parts: seq<string>): (r: seq<nat>)
  {
    seq(|parts|, i requires 0 <= i < |parts| => ValueOf(parts[i], 16))
  }

  function TailValues(sp: Spelling): seq<nat> {
    if sp.tail.Some? then [V4Value(sp.tail.value) / 65536, V4Value(sp.tail.value) % 65536] else []
  }

  /** The eight 16-bit words the spelling stands for. */
  function Words(sp: Spelling): (words: seq<nat>)
    requires ValidSpelling(sp)
  {
    Values(sp.left) + seq(8 - Count(sp), _ => 0) + Values(sp.right) + TailValues(sp)
  }

  function Number(words: seq<nat>): nat {
    if words == [] then 0 else Number(words[..|words| - 1]) * 65536 + words[|words| - 1]
  }

  lemma {:induction false} FoldIsNumber(parts: seq<string>)
    ensures Fold(parts, 16, 65536) == Number(Values(parts))
  {
    if parts != [] {
      var front := parts[..|parts| - 1];
      FoldIsNumber(front);
      assert Values(parts)[..|parts| - 1] == Values(front);
    }
  }

  // Lower case ----------------------------------------------------------------------------------

  lemma LowerJoined(a: string, b: string)
    ensures Lower(a + b) == Lower(a) + Lower(b)
  {
  }

  function LowerAll(parts: seq<string>): (r: seq<string>)
  {
    seq(|parts|, i requires 0 <= i < |parts| => Lower(parts[i]))
  }

  lemma {:induction false} LowerJoin(parts: seq<string>)
    ensures Lower(Join(parts, ':')) == Join(LowerAll(parts), ':')
  {
    if |parts| > 1 {
      LowerJoined(parts[0] + ":", Join(parts[1..], ':'));
      LowerJoined(parts[0], ":");
      assert Lower(":") == ":";
      LowerJoin(parts[1..]);
      assert LowerAll(parts)[1..] == LowerAll(parts[1..]);
      assert parts[0] + [':'] == parts[0] + ":";
    }
  }

  lemma {:induction false} LowerValue(s: string, radix: nat)
    ensures ValueOf(Lower(s), radix) == ValueOf(s, radix)
  {
    if s != "" {
      LowerValue(s[..|s| - 1], radix);
      assert Lower(s)[..|s| - 1] == Lower(s[..|s| - 1]);
    }
  }

  lemma LowerGroups(parts: seq<string>)
    requires AllGroups(parts)
    ensures AllGroups(LowerAll(parts)) && Values(LowerAll(parts)) == Values(parts)
  {
    forall i | 0 <= i < |parts|
      ensures IsGroup(LowerAll(parts)[i]) && ValueOf(LowerAll(parts)[i], 16) == ValueOf(parts[i], 16)
    {
      assert parts[i] in parts;
      LowerValue(parts[i], 16);
    }
  }

  // The IPv4 tail ---------------------------------------------------------------------------------

  lemma {:induction false} JoinLast(parts: seq<string>, last: string)
    ensures Join(parts + [last], ':') == (if parts == [] then "" else Join(parts, ':') + ":") + last
  {
    if parts == [] {
      assert parts + [last] == [last];
    } else {
      assert (parts + [last])[1..] == parts[1..] + [last];
      JoinLast(parts[1..], last);
      if |parts| > 1 {
        assert Join(parts, ':') == parts[0] + [':'] + Join(parts[1..], ':');
      } else {
        assert parts[1..] == [];
      }
    }
  }

  /** What stands before the tail: nothing, or text that ends in a colon. */
  function Before(sp: Spelling): string {
    var last := if sp.gap then sp.right else sp.left;
    (if sp.gap then Join(sp.left, ':') + "::" else "") + if last == [] then "" else Join(last, ':') + ":"
  }

  lemma ExtendedByOne(sp: Spelling, x: string)
    ensures Extended(sp, [x]) == Before(sp) + x
  {
    var last := if sp.gap then sp.right else sp.left;
    hide Join;
    JoinLast(last, x);
  }

  lemma ExtendedByTwo(sp: Spelling, x: string, y: string)
    ensures Extended(sp, [x, y]) == Before(sp) + x + ":" + y
  {
    var last := if sp.gap then sp.right else sp.left;
    hide Join;
    JoinLast(last, x);
    JoinLast(last + [x], y);
    assert last + [x] + [y] == last + [x, y];
  }

  predicate Without(s: string, c: char) { forall i | 0 <= i < |s| :: s[i] != c }

  lemma {:induction false} JoinWithoutDot(parts: seq<string>)
    requires AllGroups(parts)
    ensures Without(Join(parts, ':'), '.')
  {
    if parts != [] {
      assert parts[0] in parts;
      JoinWithoutDot(parts[1..]);
    }
  }

  lemma BeforeWithoutDot(sp: Spelling)
    requires AllGroups(sp.left) && AllGroups(sp.right)
    ensures Without(Before(sp), '.')
    ensures Before(sp) == "" || Before(sp)[|Before(sp)| - 1] == ':'
  {
    JoinWithoutDot(sp.left);
    JoinWithoutDot(sp.right);
  }

  lemma {:induction false} DigitsAfter(before: string, digits: string)
    requires before == "" || before[|before| - 1] == ':'
    requires forall i | 0 <= i < |digits| :: IsDigit(digits[i], 10)
    ensures DigitsAtEnd(before + digits) == |digits|
  {
    var all := before + digits;
    if digits == "" {
      assert all == before;
    } else {
      DigitsAfter(before, digits[..|digits| - 1]);
      assert all[..|all| - 1] == before + digits[..|digits| - 1];
    }
  }

  /** Splitting an IPv4 tail gives back its numerals; the first one keeps what stands before it. */
  lemma SplitDotted(before: string, v: V4)
    requires Without(before, '.')
    ensures Split(before + Dotted(v), '.')
         == [before + Numeral(v.a, 10), Numeral(v.b, 10), Numeral(v.c, 10), Numeral(v.d, 10)]
  {
    var a, b, c, d := Numeral(v.a, 10), Numeral(v.b, 10), Numeral(v.c, 10), Numeral(v.d, 10);
    NoDotInNumeral(v.a);
    NoDotInNumeral(v.b);
    NoDotInNumeral(v.c);
    NoDotInNumeral(v.d);
    hide Split, Numeral;
    assert before + (a + "." + (b + "." + (c + "." + d))) == before + a + "." + (b + "." + (c + "." + d));
    SplitFour(before + a, b, c, d);
  }

  lemma NoDotInNumeral(n: nat)
    ensures '.' !in Numeral(n, 10)
  {
    NumeralRoundTrip(n, 10);
  }

  lemma SplitFour(a: string, b: string, c: string, d: string)
    requires '.' !in a && '.' !in b && '.' !in c && '.' !in d
    ensures Split(a + "." + (b + "." + (c + "." + d)), '.') == [a, b, c, d]
  {
    hide Split;
    SplitHead(d, "", '.');
    SplitHead(c, d, '.');
    SplitHead(b, c + "." + d, '.');
    SplitHead(a, b + "." + (c + "." + d), '.');
  }

  lemma Ipv4ReadsDotted(v: V4)
    ensures Ipv4ToInt(Dotted(v)) == V4Value(v)
  {
    var a, b, c, d := Numeral(v.a, 10), Numeral(v.b, 10), Numeral(v.c, 10), Numeral(v.d, 10);
    SplitDotted("", v);
    assert "" + Dotted(v) == Dotted(v) && "" + a == a;
    NumeralRoundTrip(v.a, 10);
    NumeralRoundTrip(v.b, 10);
    NumeralRoundTrip(v.c, 10);
    NumeralRoundTrip(v.d, 10);
    hide Numeral, Split, ValueOf, Dotted;
    FoldFour(a, b, c, d);
  }

  lemma FoldFour(a: string, b: string, c: string, d: string)
    ensures Fold([a, b, c, d], 10, 256)
         == ((ValueOf(a, 10) * 256 + ValueOf(b, 10)) * 256 + ValueOf(c, 10)) * 256 + ValueOf(d, 10)
  {
    FoldLast([a, b, c], d);
    FoldLast([a, b], c);
    FoldLast([a], b);
    FoldLast([], a);
    assert [] + [a] == [a] && [a] + [b] == [a, b] && [a, b] + [c] == [a, b, c] && [a, b, c] + [d] == [a, b, c, d];
  }

  lemma FoldLast(parts: seq<string>, last: string)
    ensures Fold(parts + [last], 10, 256) == Fold(parts, 10, 256) * 256 + ValueOf(last, 10)
    ensures Fold([], 10, 256) == 0
  {
    assert (parts + [last])[..|parts|] == parts;
  }

  lemma TailFound(before: string, v: V4)
    requires Without(before, '.') && (before == "" || before[|before| - 1] == ':')
    ensures TailLength(before + Dotted(v)) == |Dotted(v)|
  {
    var a, b, c, d := Numeral(v.a, 10), Numeral(v.b, 10), Numeral(v.c, 10), Numeral(v.d, 10);
    SplitDotted(before, v);
    NumeralRoundTrip(v.a, 10);
    NumeralRoundTrip(v.b, 10);
    NumeralRoundTrip(v.c, 10);
    NumeralRoundTrip(v.d, 10);
    hide Numeral, Split, Dotted, ValueOf, DigitsAtEnd, TailLength, IsNumeral;
    TailOfParts(before + Dotted(v), before, a, b, c, d);
  }

  lemma TailOfParts(ip: string, before: string, a: string, b: string, c: string, d: string)
    requires before == "" || before[|before| - 1] == ':'
    requires IsNumeral(a, 10) && IsNumeral(b, 10) && IsNumeral(c, 10) && IsNumeral(d, 10)
    requires Split(ip, '.') == [before + a, b, c, d]
    ensures TailLength(ip) == |a| + |b| + |c| + |d| + 3
  {
    hide Split, DigitsAtEnd;
    DigitsAfter(before, a);
    hide IsNumeral;
  }

  /** The same spelling with the tail written as two groups. */
  function TailAsGroups(sp: Spelling): (r: Spelling)
  {
    if sp.tail.None? then sp
    else
      var (high, low) := TailWords(V4Value(sp.tail.value));
      if sp.gap then Spelling(sp.left, true, sp.right + [high, low], None)
      else Spelling(sp.left + [high, low], false, [], None)
  }

  lemma UntailedText(sp: Spelling)
    requires ValidSpelling(sp)
    ensures Untailed(Text(sp)) == Text(TailAsGroups(sp))
  {
    if sp.tail.None? {
      JoinWithoutDot(sp.left);
      JoinWithoutDot(sp.right);
      assert sp.left + [] == sp.left && sp.right + [] == sp.right;
      SplitHead(Text(sp), "", '.');
    } else {
      var v := sp.tail.value;
      var before, dotted := Before(sp), Dotted(v);
      ExtendedByOne(sp, dotted);
      BeforeWithoutDot(sp);
      TailFound(before, v);
      Ipv4ReadsDotted(v);
      assert (before + dotted)[|before|..] == dotted;
      assert (before + dotted)[..|before|] == before;
      var (high, low) := TailWords(V4Value(v));
      ExtendedByTwo(sp, high, low);
      assert sp.right + [high, low] + [] == sp.right + [high, low];
      assert sp.left + [high, low] + [] == sp.left + [high, low];
    }
  }

  // The two halves --------------------------------------------------------------------------------

  lemma {:induction false} JoinSeparated(parts: seq<string>)
    requires AllGroups(parts)
    ensures Separated(Join(parts, ':')) && (Join(parts, ':') == "" <==> parts == [])
  {
    if parts != [] {
      assert parts[0] in parts;
      if |parts| > 1 {
        var rest := Join(parts[1..], ':');
        JoinSeparated(parts[1..]);
        assert parts[1] in parts;
      }
    }
  }

  lemma GroupsOfJoin(parts: seq<string>)
    requires AllGroups(parts)
    ensures Groups(Join(parts, ':')) == parts
  {
    JoinSeparated(parts);
    if parts != [] {
      forall p | p in parts
        ensures ':' !in p
      {
      }
      SplitJoin(parts, ':');
    }
  }

  lemma HalvesOfPlain(left: seq<string>, gap: bool, right: seq<string>)
    requires AllGroups(left) && AllGroups(right)
    ensures SplitDouble(Plain(left, gap, right)) == if gap then [Join(left, ':'), Join(right, ':')] else [Join(left, ':')]
  {
    JoinSeparated(left);
    JoinSeparated(right);
    PlainParts(left, gap, right);
    hide *;
    SplitDoubleNone(Join(left, ':'));
    SplitDoubleOnce(Join(left, ':'), Join(right, ':'));
  }

  lemma PlainParts(left: seq<string>, gap: bool, right: seq<string>)
    ensures Plain(left, gap, right) == if gap then Join(left, ':') + "::" + Join(right, ':') else Join(left, ':')
  {
    hide Join;
    assert Join(left, ':') + ("::" + Join(right, ':')) == Join(left, ':') + "::" + Join(right, ':');
    assert Join(left, ':') + "" == Join(left, ':');
  }

  // ---------------------------------------------------------------------------------------------
  // Every spelling gives the same number
  // ---------------------------------------------------------------------------------------------

  /** Without a tail: the groups, with zeros in the gap, are read as written. */
  lemma PlainRead(left: seq<string>, gap: bool, right: seq<string>)
    requires AllGroups(left) && AllGroups(right)
    requires if gap then |left| + |right| <= 8 else right == [] && |left| == 8
    ensures var halves := SplitDouble(Plain(left, gap, right));
            && |halves| <= 2 && Groups(halves[0]) == left && (if |halves| == 2 then Groups(halves[1]) else []) == right
            && (|halves| == 2 <==> gap)
  {
    HalvesOfPlain(left, gap, right);
    GroupsOfJoin(left);
    GroupsOfJoin(right);
  }

  lemma ZerosAreGroups(n: nat)
    ensures AllGroups(Zeros(n)) && Values(Zeros(n)) == seq(n, _ => 0)
  {
    assert DigitValue('0') == Some(0);
    assert ValueOf("0", 16) == 0 by {
      ValueOfLast("", '0', 16);
      NoValue(16);
      assert "" + ['0'] == "0";
    }
    assert IsGroup("0");
  }

  /** Words and validity do not change when the tail is written as groups, or the case of the letters. */
  lemma SameWords(sp: Spelling)
    requires ValidSpelling(sp)
    ensures ValidSpelling(TailAsGroups(sp)) && Words(TailAsGroups(sp)) == Words(sp) && TailAsGroups(sp).tail.None?
  {
    if sp.tail.Some? {
      TailWordsRead(sp.tail.value);
      hide TailWords, IsGroup, ValueOf, V4Value;
      var (high, low) := TailWords(V4Value(sp.tail.value));
      var r := TailAsGroups(sp);
      assert Count(r) == Count(sp);
      hide Values;
      var zeros := seq(8 - Count(sp), _ => 0);
      if sp.gap {
        assert Words(r) == Values(sp.left) + zeros + (Values(sp.right) + TailValues(sp)) + [];
      } else {
        assert Words(r) == (Values(sp.left) + TailValues(sp)) + zeros + Values([]) + [];
        assert zeros == [] && Values(sp.right) == Values([]) == [];
      }
    }
  }

  lemma TailWordsRead(v: V4)
    requires ValidV4(v)
    ensures var (high, low) := TailWords(V4Value(v));
            && IsGroup(high) && IsGroup(low)
            && Values([high, low]) == [V4Value(v) / 65536, V4Value(v) % 65536]
  {
    var value := V4Value(v);
    assert value / 65536 < 65536;
    assert value / 65536 % 65536 == value / 65536;
    hide Numeral, ValueOf, IsGroup;
    WordIsGroup(value / 65536);
    WordIsGroup(value % 65536);
  }

  lemma WordIsGroup(n: nat)
    requires n < 65536
    ensures IsGroup(Numeral(n, 16)) && ValueOf(Numeral(n, 16), 16) == n
  {
    NumeralRoundTrip(n, 16);
    assert Power(16, 4) == 65536 by {
      assert Power(16, 1) == Power(16, 0) * 16 == 16;
      assert Power(16, 2) == Power(16, 1) * 16 == 256;
      assert Power(16, 3) == Power(16, 2) * 16 == 4096;
    }
    NumeralLength(n, 4);
  }

  function LowerSpelling(sp: Spelling): Spelling {
    Spelling(LowerAll(sp.left), sp.gap, LowerAll(sp.right), sp.tail)
  }

  lemma LowerNumeral(s: string)
    requires IsNumeral(s, 10)
    ensures Lower(s) == s
  {
    forall i | 0 <= i < |s|
      ensures Lower(s)[i] == s[i]
    {
      assert IsDigit(s[i], 10);
    }
  }

  lemma LowerDotted(v: V4)
    ensures Lower(Dotted(v)) == Dotted(v)
  {
    NumeralRoundTrip(v.a, 10);
    NumeralRoundTrip(v.b, 10);
    NumeralRoundTrip(v.c, 10);
    NumeralRoundTrip(v.d, 10);
    hide Numeral;
    var a, b, c, d := Numeral(v.a, 10), Numeral(v.b, 10), Numeral(v.c, 10), Numeral(v.d, 10);
    LowerNumeral(a);
    LowerNumeral(b);
    LowerNumeral(c);
    LowerNumeral(d);
    hide Lower;
    LowerPair(c, d);
    LowerPair(b, c + "." + d);
    LowerPair(a, b + "." + (c + "." + d));
  }

  lemma LowerPair(a: string, b: string)
    ensures Lower(a + "." + b) == Lower(a) + "." + Lower(b)
  {
    LowerJoined(a + ".", b);
    LowerJoined(a, ".");
    assert Lower(".") == ".";
  }

  lemma LowerText(sp: Spelling)
    ensures Lower(Text(sp)) == Text(LowerSpelling(sp))
  {
    var more := if sp.tail.Some? then [Dotted(sp.tail.value)] else [];
    if sp.tail.Some? {
      LowerDotted(sp.tail.value);
    }
    hide Lower;
    assert LowerAll(more) == more;
    assert LowerAll(sp.left + more) == LowerAll(sp.left) + more;
    assert LowerAll(sp.right + more) == LowerAll(sp.right) + more;
    LowerJoin(sp.left);
    LowerJoin(sp.left + more);
    LowerJoin(sp.right + more);
    LowerJoined(Join(sp.left, ':'), "::" + Join(sp.right + more, ':'));
    LowerJoined("::", Join(sp.right + more, ':'));
    LowerJoined(Join(sp.left + more, ':'), "");
  }

  /**
    Every spelling of an address is read as the number of its eight words: full or compressed,
    with or without an IPv4 tail, in either case.
   */
  lemma ReadsSpelling(sp: Spelling)
    requires ValidSpelling(sp)
    ensures Ipv6ToInt(Text(sp)) == Some(Number(Words(sp)))
  {
    var low := LowerSpelling(sp);
    LowerText(sp);
    LowerGroups(sp.left);
    LowerGroups(sp.right);
    assert ValidSpelling(low) && Words(low) == Words(sp);
    UntailedText(low);
    SameWords(low);
    ReadsPlain(TailAsGroups(low), Text(sp));
  }

  lemma ReadsPlain(sp: Spelling, input: string)
    requires ValidSpelling(sp) && sp.tail.None? && Untailed(Lower(input)) == Text(sp)
    ensures Ipv6ToInt(input) == Some(Number(Words(sp)))
  {
    hide SplitDouble, Untailed, Lower, Groups, IsGroup, Number, Fold;
    assert sp.left + [] == sp.left && sp.right + [] == sp.right;
    PlainRead(sp.left, sp.gap, sp.right);
    var parts := sp.left + Zeros(8 - Count(sp)) + sp.right;
    ZerosAreGroups(8 - Count(sp));
    assert AllGroups(parts);
    assert Expanded(SplitDouble(Text(sp))) == Some(parts);
    FoldIsNumber(parts);
    assert Words(sp) == Values(parts);
  }

  lemma {:induction false} NumeralBound(s: string, k: nat)
    requires |s| <= k && (forall i | 0 <= i < |s| :: IsDigit(s[i], 16))
    ensures ValueOf(s, 16) < Power(16, k)
  {
    if k == 0 {
    } else if s == "" {
      NumeralBound(s, k - 1);
    } else {
      NumeralBound(s[..|s| - 1], k - 1);
      assert DigitValue(s[|s| - 1]).value < 16;
    }
  }

  lemma GroupBound(s: string)
    requires IsGroup(s)
    ensures ValueOf(s, 16) < 65536
  {
    NumeralBound(s, 4);
    assert Power(16, 1) == Power(16, 0) * 16 == 16;
    assert Power(16, 2) == Power(16, 1) * 16 == 256;
    assert Power(16, 3) == Power(16, 2) * 16 == 4096;
  }

  predicate AllWords(words: seq<nat>) { forall i | 0 <= i < |words| :: words[i] < 65536 }

  lemma {:induction false} NumberBound(words: seq<nat>)
    requires AllWords(words)
    ensures Number(words) < Power(65536, |words|)
  {
    if words != [] {
      NumberBound(words[..|words| - 1]);
    }
  }

  lemma GroupsAreWords(parts: seq<string>)
    requires AllGroups(parts)
    ensures AllWords(Values(parts))
  {
    forall i | 0 <= i < |parts|
      ensures ValueOf(parts[i], 16) < 65536
    {
      assert parts[i] in parts;
      GroupBound(parts[i]);
    }
  }

  lemma EightWords()
    ensures Power(65536, 8) == 0x1_0000_0000_0000_0000_0000_0000_0000_0000
  {
    var p := 65536;
    assert Power(p, 1) == Power(p, 0) * p == 0x1_0000;
    assert Power(p, 2) == Power(p, 1) * p == 0x1_0000_0000;
    assert Power(p, 3) == Power(p, 2) * p == 0x1_0000_0000_0000;
    assert Power(p, 4) == Power(p, 3) * p == 0x1_0000_0000_0000_0000;
    assert Power(p, 5) == Power(p, 4) * p == 0x1_0000_0000_0000_0000_0000;
    assert Power(p, 6) == Power(p, 5) * p == 0x1_0000_0000_0000_0000_0000_0000;
    assert Power(p, 7) == Power(p, 6) * p == 0x1_0000_0000_0000_0000_0000_0000_0000;
  }

  /** Whatever text is accepted, the number has at most 128 bits. */
  lemma AcceptedFits(input: string)
    ensures Ipv6ToInt(input).Some? ==> Ipv6ToInt(input).value < 0x1_0000_0000_0000_0000_0000_0000_0000_0000
  {
    hide Power, SplitDouble, Untailed, Groups, IsGroup;
    var parts := Expanded(SplitDouble(Untailed(Lower(input))));
    if parts.Some? {
      FoldIsNumber(parts.value);
      GroupsAreWords(parts.value);
      NumberBound(Values(parts.value));
      EightWords();
    }
  }

  lemma {:induction false} NumberInjective(a: seq<nat>, b: seq<nat>)
    requires AllWords(a) && AllWords(b) && |a| == |b| && Number(a) == Number(b)
    ensures a == b
  {
    if a != [] {
      var x, y := a[|a| - 1], b[|b| - 1];
      var high, low := Number(a[..|a| - 1]), Number(b[..|b| - 1]);
      NumberInjective(a[..|a| - 1], b[..|b| - 1]);
      assert a == a[..|a| - 1] + [x] && b == b[..|b| - 1] + [y];
    }
  }

  /** Two spellings are read as the same number exactly when they stand for the same eight words. */
  lemma SpellingsAgreeExactly(a: Spelling, b: Spelling)
    requires ValidSpelling(a) && ValidSpelling(b)
    ensures Ipv6ToInt(Text(a)) == Ipv6ToInt(Text(b)) <==> Words(a) == Words(b)
  {
    ReadsSpelling(a);
    ReadsSpelling(b);
    WordsAreWords(a);
    WordsAreWords(b);
    if Number(Words(a)) == Number(Words(b)) {
      NumberInjective(Words(a), Words(b));
    }
  }

  lemma WordsAreWords(sp: Spelling)
    requires ValidSpelling(sp)
    ensures AllWords(Words(sp)) && |Words(sp)| == 8
  {
    GroupsAreWords(sp.left);
    GroupsAreWords(sp.right);
    assert AllWords(TailValues(sp)) by {
      if sp.tail.Some? {
        assert V4Value(sp.tail.value) / 65536 < 65536;
      }
    }
    hide Values, TailValues;
    assert AllWords(seq(8 - Count(sp), _ => 0));
  }

  // ---------------------------------------------------------------------------------------------
  // IPv4 addresses written as IPv6
  // ---------------------------------------------------------------------------------------------

  datatype Address = Address(family: int, bits: nat, value: nat)

  /** Four decimal numerals with dots between them. */
  predicate DottedShape(s: string) {
    var parts := Split(s, '.');
    |parts| == 4 && forall i | 0 <= i < 4 :: IsNumeral(parts[i], 10)
  }

  /** What `normalizeIp` does to an address: the mapped prefix goes, and what is left is lower case. */
  function Normalized(ip: string): string {
    Lower(if |ip| >= 7 && Lower(ip[..7]) == "::ffff:" && DottedShape(ip[7..]) then ip[7..] else ip)
  }

  /** `ipValue`; `isIP` is the platform's classification, and `None` where the program throws. */
  function IpValue(isIP: string -> int, ip: string): Option<Address> {
    var normalized := Normalized(ip);
    if isIP(normalized) == 4 then Some(Address(4, 32, Ipv4ToInt(normalized)))
    else if isIP(normalized) == 6 then
      var value := Ipv6ToInt(normalized);
      if value.None? then None else Some(Address(6, 128, value.value))
    else None
  }

  /** The platform knows the addresses of this model. */
  ghost predicate Classifies(isIP: string -> int) {
    && (forall v: V4 | ValidV4(v) :: isIP(Dotted(v)) == 4)
    && forall sp: Spelling | ValidSpelling(sp) :: isIP(Text(sp)) == 6
  }

  /** Written as `::ffff:` and an IPv4 tail. */
  predicate MappedTail(sp: Spelling) {
    sp.left == [] && sp.gap && |sp.right| == 1 && Lower(sp.right[0]) == "ffff" && sp.tail.Some?
  }

  lemma {:induction false} SplitKeepsChars(s: string, c: char, x: char)
    requires x in s && x != c
    ensures exists i :: 0 <= i < |Split(s, c)| && x in Split(s, c)[i]
  {
    var rest := Split(s[1..], c);
    if s[0] == x {
      assert x in Split(s, c)[0];
    } else {
      assert s == [s[0]] + s[1..];
      SplitKeepsChars(s[1..], c, x);
      var i :| 0 <= i < |rest| && x in rest[i];
      assert x in Split(s, c)[if s[0] == c then i + 1 else i];
    }
  }

  lemma DottedShapeChars(s: string)
    requires DottedShape(s)
    ensures ':' !in s && '.' in s
  {
    var parts := Split(s, '.');
    if ':' in s {
      SplitKeepsChars(s, '.', ':');
      var i :| 0 <= i < |parts| && ':' in parts[i];
      NumeralHasNone(parts[i], ':');
    }
    if '.' !in s {
      SplitHead(s, "", '.');
    }
  }

  lemma NumeralHasNone(s: string, c: char)
    requires (IsNumeral(s, 10) || IsNumeral(s, 16)) && (c == '.' || c == ':')
    ensures c !in s
  {
  }

  lemma DecimalNumeral(n: nat)
    ensures IsNumeral(Numeral(n, 10), 10) && Numeral(n, 10) != "" && Numeral(n, 10)[0] != ':'
  {
    NumeralRoundTrip(n, 10);
    NumeralHasNone(Numeral(n, 10), ':');
  }

  lemma DottedHasShape(v: V4)
    ensures DottedShape(Dotted(v)) && Lower(Dotted(v)) == Dotted(v)
  {
    SplitDotted("", v);
    LowerDotted(v);
    DecimalNumeral(v.a);
    DecimalNumeral(v.b);
    DecimalNumeral(v.c);
    DecimalNumeral(v.d);
    hide Numeral, Split, IsNumeral, Dotted, Lower;
    assert "" + Dotted(v) == Dotted(v) && "" + Numeral(v.a, 10) == Numeral(v.a, 10);
  }

  lemma DottedStarts(v: V4)
    ensures Dotted(v) != "" && Dotted(v)[0] != ':'
  {
    DecimalNumeral(v.a);
    hide Numeral, IsNumeral;
  }

  /** A text that reads `::ffff:` in lower case. */
  lemma PrefixReads(p: string)
    requires |p| == 7 && Lower(p) == "::ffff:"
    ensures p[0] == ':' && p[1] == ':' && p[6] == ':' && Lower(p[2..6]) == "ffff"
  {
    forall i | 0 <= i < 7
      ensures LowerChar(p[i]) == "::ffff:"[i]
    {
      assert Lower(p)[i] == LowerChar(p[i]);
    }
  }

  lemma NormalizedDotted(v: V4)
    ensures Normalized(Dotted(v)) == Dotted(v)
  {
    DottedHasShape(v);
    DottedStarts(v);
    hide Dotted, DottedShape, Lower;
    var s := Dotted(v);
    if |s| >= 7 && Lower(s[..7]) == "::ffff:" {
      PrefixReads(s[..7]);
    }
  }

  lemma MappedText(sp: Spelling)
    requires ValidSpelling(sp) && MappedTail(sp)
    ensures Normalized(Text(sp)) == Dotted(sp.tail.value)
  {
    var v, g := sp.tail.value, sp.right[0];
    ExtendedByOne(sp, Dotted(v));
    DottedHasShape(v);
    hide Dotted, DottedShape;
    assert Join([], ':') == "" && Join(sp.right, ':') == g;
    assert Before(sp) == "::" + g + ":";
    LowerJoined("::" + g, ":");
    LowerJoined("::", g);
    assert Lower("::") == "::" && Lower(":") == ":";
    assert |Lower(g)| == 4 && |Before(sp)| == 7;
    assert Lower(Before(sp)) == "::" + "ffff" + ":";
    assert Text(sp)[..7] == Before(sp) && Text(sp)[7..] == Dotted(v);
  }

  lemma StartsWithoutColon(parts: seq<string>)
    requires parts != [] && IsGroup(parts[0])
    ensures Join(parts, ':') != "" && Join(parts, ':')[0] != ':'
  {
    NumeralHasNone(parts[0], ':');
  }

  /** The parts of what follows the gap. */
  function LastParts(sp: Spelling): seq<string> { sp.right + if sp.tail.Some? then [Dotted(sp.tail.value)] else [] }

  /** A text that begins with two colons begins with the gap. */
  lemma ColonsAreGap(sp: Spelling)
    requires ValidSpelling(sp) && Text(sp) != "" && Text(sp)[0] == ':'
    ensures sp.gap && sp.left == [] && Text(sp) == "::" + Join(LastParts(sp), ':')
  {
    var more := if sp.tail.Some? then [Dotted(sp.tail.value)] else [];
    hide Dotted, IsGroup;
    assert sp.left != [] ==> sp.left[0] in sp.left && IsGroup(sp.left[0]);
    if !sp.gap {
      StartsWithoutColon(sp.left + more);
    } else if sp.left != [] {
      StartsWithoutColon(sp.left);
    }
  }

  /** Only a mapped spelling has the prefix before dotted decimal. */
  lemma MappedOnly(sp: Spelling, f: string, rest: string)
    requires ValidSpelling(sp) && sp.gap && sp.left == []
    requires Join(LastParts(sp), ':') == f + ":" + rest && Lower(f) == "ffff" && DottedShape(rest)
    ensures MappedTail(sp)
  {
    var parts := LastParts(sp);
    DottedShapeChars(rest);
    assert ':' !in f by {
      assert forall i | 0 <= i < |f| :: LowerChar(f[i]) == Lower(f)[i];
    }
    SplitHead(f, rest, ':');
    SplitHead(rest, "", ':');
    assert f + [':'] + rest == f + ":" + rest;
    assert parts != [];
    forall p | p in parts
      ensures ':' !in p
    {
      if p in sp.right {
        NumeralHasNone(p, ':');
      } else {
        DottedHasShape(sp.tail.value);
        DottedShapeChars(p);
      }
    }
    SplitJoin(parts, ':');
    assert parts == [f, rest];
    hide DottedShape, IsNumeral;
    if sp.tail.None? {
      assert sp.right == parts && parts[1] in sp.right;
      GroupHasNoDot(parts[1]);
    } else {
      assert |sp.right| == 1 && sp.right[0] == parts[0];
    }
  }

  lemma GroupHasNoDot(s: string)
    requires IsGroup(s)
    ensures '.' !in s
  {
  }

  lemma PrefixMeansMapped(sp: Spelling, s: string)
    requires ValidSpelling(sp) && s == Text(sp)
    requires |s| >= 7 && Lower(s[..7]) == "::ffff:" && DottedShape(s[7..])
    ensures MappedTail(sp)
  {
    hide Text, DottedShape, Lower, IsGroup;
    PrefixReads(s[..7]);
    ColonsAreGap(sp);
    var f, rest := s[2..6], s[7..];
    assert s[..7][2..6] == f;
    assert s[2..] == f + ":" + rest;
    assert s[2..] == Join(LastParts(sp), ':');
    hide MappedTail;
    MappedOnly(sp, f, rest);
  }

  lemma NormalizedText(sp: Spelling)
    requires ValidSpelling(sp)
    ensures Normalized(Text(sp)) == if MappedTail(sp) then Dotted(sp.tail.value) else Text(LowerSpelling(sp))
  {
    hide Text, DottedShape, Lower, MappedTail;
    if MappedTail(sp) {
      MappedText(sp);
    } else {
      LowerText(sp);
      var s := Text(sp);
      if |s| >= 7 && Lower(s[..7]) == "::ffff:" && DottedShape(s[7..]) {
        PrefixMeansMapped(sp, s);
      }
    }
  }

  /** A spelling stands for its IPv6 number, except the mapped one, which stands for its IPv4 tail. */
  function Meaning(sp: Spelling): Address
    requires ValidSpelling(sp)
  {
    if MappedTail(sp) then Address(4, 32, V4Value(sp.tail.value)) else Address(6, 128, Number(Words(sp)))
  }

  lemma LowerIsValid(sp: Spelling)
    requires ValidSpelling(sp)
    ensures ValidSpelling(LowerSpelling(sp)) && Words(LowerSpelling(sp)) == Words(sp)
  {
    LowerGroups(sp.left);
    LowerGroups(sp.right);
  }

  /** What `ipValue` makes of dotted decimal, and of every spelling. */
  lemma ReadsAddress(isIP: string -> int, v: V4, sp: Spelling)
    requires Classifies(isIP)
    ensures ValidV4(v) ==> IpValue(isIP, Dotted(v)) == Some(Address(4, 32, V4Value(v)))
    ensures ValidSpelling(sp) ==> IpValue(isIP, Text(sp)) == Some(Meaning(sp))
  {
    hide Normalized, Ipv4ToInt, Ipv6ToInt, Dotted, Text;
    NormalizedDotted(v);
    Ipv4ReadsDotted(v);
    if ValidSpelling(sp) {
      NormalizedText(sp);
      if MappedTail(sp) {
        Ipv4ReadsDotted(sp.tail.value);
      } else {
        LowerIsValid(sp);
        ReadsSpelling(LowerSpelling(sp));
      }
    }
  }

  /** The words of a mapped spelling tell its tail. */
  lemma MappedWords(a: Spelling, b: Spelling)
    requires ValidSpelling(a) && ValidSpelling(b) && MappedTail(a) && MappedTail(b)
    ensures Words(a) == Words(b) <==> V4Value(a.tail.value) == V4Value(b.tail.value)
  {
    LowerValue(a.right[0], 16);
    LowerValue(b.right[0], 16);
    var x, y := V4Value(a.tail.value), V4Value(b.tail.value);
    assert Words(a)[6] == x / 65536 && Words(a)[7] == x % 65536;
    assert Words(b)[6] == y / 65536 && Words(b)[7] == y % 65536;
    DivMod(x, 65536);
    DivMod(y, 65536);
  }

  /**
    Two spellings are the same address to `isTrustedProxy` exactly when they stand for the same words and both
    or neither are written with the mapped prefix and an IPv4 tail; dotted decimal is the same as a spelling
    exactly when the spelling is so written, over the same tail.
   */
  lemma SameAddressExactly(isIP: string -> int, a: Spelling, b: Spelling, v: V4)
    requires Classifies(isIP) && ValidSpelling(a) && ValidSpelling(b) && ValidV4(v)
    ensures IpValue(isIP, Text(a)) == IpValue(isIP, Text(b)) <==> Words(a) == Words(b) && MappedTail(a) == MappedTail(b)
    ensures IpValue(isIP, Dotted(v)) == IpValue(isIP, Text(a)) <==>
            MappedTail(a) && V4Value(v) == V4Value(a.tail.value)
  {
    hide IpValue, Classifies, Text, Dotted, Words, Number, V4Value, MappedTail;
    ReadsAddress(isIP, v, a);
    ReadsAddress(isIP, v, b);
    WordsAreWords(a);
    WordsAreWords(b);
    if Number(Words(a)) == Number(Words(b)) {
      NumberInjective(Words(a), Words(b));
    }
    if MappedTail(a) && MappedTail(b) {
      MappedWords(a, b);
    }
  }

  /** So every IPv4 address has two spellings of the same words that are different addresses to the program. */
  lemma MappedSpellingsDiffer(isIP: string -> int, v: V4) returns (a: Spelling, b: Spelling)
    requires Classifies(isIP) && ValidV4(v)
    ensures a == Spelling([], true, ["ffff"], Some(v)) && b == TailAsGroups(a)
    ensures ValidSpelling(a) && ValidSpelling(b) && Words(a) == Words(b)
    ensures IpValue(isIP, Text(a)) != IpValue(isIP, Text(b))
  {
    a := Spelling([], true, ["ffff"], Some(v));
    b := TailAsGroups(a);
    assert IsGroup("ffff") && Lower("ffff") == "ffff";
    SameWords(a);
    SameAddressExactly(isIP, a, b, v);
  }

  // ---------------------------------------------------------------------------------------------
  // Ranges
  // ---------------------------------------------------------------------------------------------

  predicate ValidAddress(a: Address) {
    ((a.family == 4 && a.bits == 32) || (a.family == 6 && a.bits == 128)) && a.value < Power(2, a.bits)
  }

  datatype Range = Range(family: int, bits: nat, prefix: nat, network: nat)

  /** What follows the slash of an entry. */
  datatype Prefix = Absent | NotInteger | Bits(bits: int)

  /** `(value >> shift) << shift` */
  function Masked(value: nat, shift: nat): nat
  {
    PowerPositive(2, shift);
    value / Power(2, shift) * Power(2, shift)
  }

  lemma {:induction false} PowerPositive(radix: nat, k: nat)
    requires radix > 0
    ensures Power(radix, k) > 0
  {
    if k > 0 {
      PowerPositive(radix, k - 1);
    }
  }

  /** `parseTrustedProxyEntry` on an entry whose address is valid; `None` where it throws. */
  function ParseEntry(address: Address, given: Prefix): Option<Range> {
    if given.NotInteger? then None
    else
      var prefix := if given.Absent? then address.bits else given.bits;
      if prefix < 0 || prefix > address.bits then None
      else
        var shift := address.bits - prefix;
        Some(Range(address.family, address.bits, prefix,
                   if shift == 0 then address.value else Masked(address.value, shift)))
  }

  /** One comparison of `isTrustedProxy`. */
  predicate Matches(a: Address, range: Range) {
    && range.family == a.family
    && range.prefix <= range.bits
    && var shift := range.bits - range.prefix;
       (if shift == 0 then a.value else Masked(a.value, shift)) == range.network
  }

  /** `None` is a client string that is no address. */
  predicate IsTrustedProxy(a: Option<Address>, ranges: seq<Range>) {
    a.Some? && exists i :: 0 <= i < |ranges| && Matches(a.value, ranges[i])
  }

  /** The range is one that some entry was parsed to. */
  ghost predicate Compiled(range: Range) {
    exists address, given :: ValidAddress(address) && ParseEntry(address, given) == Some(range)
  }

  lemma MaskedBounds(value: nat, shift: nat, multiple: nat)
    ensures Masked(value, shift) == multiple * Power(2, shift)
       <==> multiple * Power(2, shift) <= value < multiple * Power(2, shift) + Power(2, shift)
  {
    hide Power;
    PowerPositive(2, shift);
    QuotientBounds(value, Power(2, shift), multiple);
    SameMultiple(value / Power(2, shift), multiple, Power(2, shift));
  }

  lemma SameMultiple(p: nat, q: nat, unit: nat)
    requires unit > 0
    ensures p * unit == q * unit <==> p == q
  {
    if p < q {
      assert (q - p) * unit > 0;
    } else if q < p {
      assert (p - q) * unit > 0;
    }
  }

  lemma QuotientBounds(value: nat, unit: nat, q: nat)
    requires unit > 0
    ensures value / unit == q <==> q * unit <= value < q * unit + unit
  {
    var p := value / unit;
    assert value == p * unit + value % unit;
    if q < p {
      assert (q + 1) * unit <= p * unit;
    } else if p < q {
      assert (p + 1) * unit <= q * unit;
    }
  }

  lemma MatchesExactly(a: Address, range: Range)
    requires ValidAddress(a) && Compiled(range)
    ensures Matches(a, range) <==>
            && range.family == a.family && range.prefix <= range.bits
            && range.network <= a.value < range.network + Power(2, range.bits - range.prefix)
  {
    var address, given :| ValidAddress(address) && ParseEntry(address, given) == Some(range);
    var shift := range.bits - range.prefix;
    assert Power(2, 0) == 1;
    hide Power;
    PowerPositive(2, shift);
    MaskedBounds(a.value, shift, address.value / Power(2, shift));
  }

  /** A client is trusted exactly when it lies between the first and the last address of a range of its family. */
  lemma TrustedExactly(a: Address, ranges: seq<Range>)
    requires ValidAddress(a) && forall i | 0 <= i < |ranges| :: Compiled(ranges[i])
    ensures IsTrustedProxy(Some(a), ranges) <==>
            exists i :: 0 <= i < |ranges| && ranges[i].family == a.family && ranges[i].prefix <= ranges[i].bits
                        && ranges[i].network <= a.value < ranges[i].network + Power(2, ranges[i].bits - ranges[i].prefix)
  {
    hide Matches, Power, Compiled;
    forall i | 0 <= i < |ranges|
      ensures Matches(a, ranges[i]) <==>
              && ranges[i].family == a.family && ranges[i].prefix <= ranges[i].bits
              && ranges[i].network <= a.value < ranges[i].network + Power(2, ranges[i].bits - ranges[i].prefix)
    {
      MatchesExactly(a, ranges[i]);
    }
  }

  /** An entry covers exactly the addresses of its family that agree with it on the first `prefix` bits. */
  lemma EntryCoversExactly(entry: Address, prefix: nat, a: Address)
    requires ValidAddress(entry) && ValidAddress(a) && prefix <= entry.bits
    ensures var range := ParseEntry(entry, Bits(prefix)).value;
            var unit := Power(2, entry.bits - prefix);
            Matches(a, range) <==> a.family == entry.family && unit > 0 && a.value / unit == entry.value / unit
  {
    var shift := entry.bits - prefix;
    MaskedParts(a.value, shift);
    MaskedParts(entry.value, shift);
    hide Power, Masked;
    PowerPositive(2, shift);
    SameMultiple(a.value / Power(2, shift), entry.value / Power(2, shift), Power(2, shift));
  }

  lemma MaskedParts(value: nat, shift: nat)
    ensures Power(2, shift) > 0 && Masked(value, shift) == value / Power(2, shift) * Power(2, shift)
    ensures shift == 0 ==> Masked(value, shift) == value
  {
    PowerPositive(2, shift);
    assert Power(2, 0) == 1;
  }

  /** An entry without a prefix covers its own address alone; a prefix is refused exactly when it is no number of bits. */
  lemma ParseEntryExactly(entry: Address, given: Prefix, a: Address)
    requires ValidAddress(entry) && ValidAddress(a)
    ensures ParseEntry(entry, given) == None <==>
            given == NotInteger || (given.Bits? && !(0 <= given.bits <= if entry.family == 4 then 32 else 128))
    ensures given == Absent ==>
              (Matches(a, ParseEntry(entry, given).value) <==> a.family == entry.family && a.value == entry.value)
    ensures given == Bits(if entry.family == 4 then 32 else 128) ==> ParseEntry(entry, given) == ParseEntry(entry, Absent)
  {
    hide Power, Masked;
  }
}
