/**
 The email check of the form controller: the JavaScript regular expression
 `/^[^\s@]+@[^\s@]+\.[^\s@]+$/` tested against a whole string.

 `ValidEmail` runs the expression as a deterministic automaton over the
 characters of the string. Two ghost readings of the same language are
 proved equal to it:
 - `IsAddress`: the string is `local "@" domain`, both parts non-empty and
   free of whitespace and `@`, and the domain has a `.` that is neither its
   first nor its last character;
 - `RegexMatch`: a piece-by-piece transcription of the expression,
   `a "@" b "." c` with `a`, `b`, `c` each in `[^\s@]+`.
 */
module EmailPattern {

  /** JavaScript's `\s`: the WhiteSpace and LineTerminator code points of ECMAScript. */
  predicate IsSpace(c: char) {
    var n := c as int;
    || n == 0x09 || n == 0x0A || n == 0x0B || n == 0x0C || n == 0x0D
    || n == 0x20 || n == 0xA0 || n == 0x1680 || (0x2000 <= n <= 0x200A)
    || n == 0x2028 || n == 0x2029 || n == 0x202F || n == 0x205F
    || n == 0x3000 || n == 0xFEFF
  }

  /** The character class `[^\s@]`. */
  predicate InClass(c: char) {
    !IsSpace(c) && c != '@'
  }

  /** Every character of `s` is in `[^\s@]` (true of the empty string). */
  predicate AllInClass(s: string) {
    forall i :: 0 <= i < |s| ==> InClass(s[i])
  }

  /** `[^\s@]+`: a non-empty run of class characters. */
  predicate IsRun(s: string) {
    |s| > 0 && AllInClass(s)
  }

  /** `s` has a `.` that is neither its first nor its last character. */
  predicate HasInnerDot(s: string) {
    exists k :: 0 < k < |s| - 1 && s[k] == '.'
  }

  /** How far the automaton has got through `^[^\s@]+@[^\s@]+\.[^\s@]+$`. */
  datatype Phase =
    | Start     // nothing read
    | Local     // inside the part before `@`
    | AfterAt   // just read the `@`
    | Domain    // inside the part after `@`, no usable dot yet
    | AfterDot  // the domain ends in a dot that follows at least one character
    | Matched   // the domain holds a dot with a character on either side
    | Dead      // no extension of the input can match

  /** One character of input. `@` and whitespace leave the class; only `@` after the local part survives. */
  function Step(q: Phase, c: char): Phase {
    if !InClass(c) then
      if q == Local && c == '@' then AfterAt else Dead
    else
      match q
      case Start => Local
      case Local => Local
      case AfterAt => Domain
      case Domain => if c == '.' then AfterDot else Domain
      case AfterDot => Matched
      case Matched => Matched
      case Dead => Dead
  }

  /** The phase reached after reading all of `s`. */
  function Scan(s: string): Phase {
    if |s| == 0 then Start else Step(Scan(s[..|s| - 1]), s[|s| - 1])
  }

  /** `validEmail`: the anchored expression matches the whole of `s`. */
  predicate ValidEmail(s: string) {
    Scan(s) == Matched
  }

  /** Index of the first `@` in `s`, or `|s|` when there is none. */
  function FirstAt(s: string): (i: nat)
    ensures i <= |s|
    ensures i < |s| ==> s[i] == '@'
    ensures forall j :: 0 <= j < i ==> s[j] != '@'
  {
    if |s| == 0 then 0
    else if s[0] == '@' then 0
    else 1 + FirstAt(s[1..])
  }

  /** The structural reading: `s` is `local "@" domain` with the parts described above. */
  ghost predicate SplitsAs(s: string, local: string, domain: string) {
    && s == local + "@" + domain
    && IsRun(local)
    && IsRun(domain)
    && HasInnerDot(domain)
  }

  ghost predicate IsAddress(s: string) {
    exists local: string, domain: string :: SplitsAs(s, local, domain)
  }

  /** The expression read piece by piece: `[^\s@]+` `@` `[^\s@]+` `\.` `[^\s@]+`. */
  ghost predicate MatchesPieces(s: string, a: string, b: string, c: string) {
    && s == a + "@" + b + "." + c
    && IsRun(a)
    && IsRun(b)
    && IsRun(c)
  }

  ghost predicate RegexMatch(s: string) {
    exists a: string, b: string, c: string :: MatchesPieces(s, a, b, c)
  }

  /** The phase a domain part (the text after the single `@`) puts the automaton in. */
  ghost function DomainPhase(d: string): Phase {
    if |d| == 0 then AfterAt
    else if HasInnerDot(d) then Matched
    else if |d| >= 2 && d[|d| - 1] == '.' then AfterDot
    else Domain
  }

  /** The phase that should follow a prefix `p`, read off its shape. */
  ghost function Classify(p: string): Phase {
    var i := FirstAt(p);
    if |p| == 0 then Start
    else if i == |p| then (if AllInClass(p) then Local else Dead)
    else if i == 0 || !AllInClass(p[..i]) || !AllInClass(p[i + 1..]) then Dead
    else DomainPhase(p[i + 1..])
  }

  lemma FirstAtIs(s: string, i: nat)
    requires i <= |s|
    requires i < |s| ==> s[i] == '@'
    requires forall j :: 0 <= j < i ==> s[j] != '@'
    ensures FirstAt(s) == i
  {
  }

  lemma AllInClassSnoc(s: string, c: char)
    ensures AllInClass(s + [c]) <==> AllInClass(s) && InClass(c)
  {
    var t := s + [c];
    assert forall i :: 0 <= i < |s| ==> t[i] == s[i];
    assert t[|s|] == c;
  }

  lemma InnerDotSnoc(d: string, c: char)
    ensures HasInnerDot(d + [c]) <==> HasInnerDot(d) || (|d| >= 2 && d[|d| - 1] == '.')
  {
    var t := d + [c];
    if HasInnerDot(t) {
      var k :| 0 < k < |t| - 1 && t[k] == '.';
      assert t[k] == d[k];
      if k < |d| - 1 {
        assert HasInnerDot(d);
      }
    }
    if HasInnerDot(d) {
      var k :| 0 < k < |d| - 1 && d[k] == '.';
      assert t[k] == '.';
    }
    if |d| >= 2 && d[|d| - 1] == '.' {
      assert t[|d| - 1] == '.';
    }
  }

  /** A domain part grows one character at a time exactly as the automaton steps. */
  lemma DomainStep(d: string, c: char)
    requires AllInClass(d)
    ensures Step(DomainPhase(d), c) == (if InClass(c) then DomainPhase(d + [c]) else Dead)
  {
    InnerDotSnoc(d, c);
    var t := d + [c];
    assert t[|t| - 1] == c;
  }

  /** The shape-based phase of a prefix advances exactly as the automaton steps. */
  lemma ClassifyStep(q: string, c: char)
    ensures Classify(q + [c]) == Step(Classify(q), c)
  {
    var p := q + [c];
    var i := FirstAt(q);
    assert p[|q|] == c;
    assert forall j :: 0 <= j < |q| ==> p[j] == q[j];
    AllInClassSnoc(q, c);
    if |q| == 0 {
      if c == '@' {
        FirstAtIs(p, 0);
      } else {
        FirstAtIs(p, 1);
      }
    } else if i == |q| {
      if c == '@' {
        FirstAtIs(p, |q|);
        assert p[..|q|] == q;
        assert p[|q| + 1..] == [];
      } else {
        FirstAtIs(p, |p|);
      }
    } else {
      FirstAtIs(p, i);
      assert p[..i] == q[..i];
      assert p[i + 1..] == q[i + 1..] + [c];
      AllInClassSnoc(q[i + 1..], c);
      if i != 0 && AllInClass(q[..i]) && AllInClass(q[i + 1..]) {
        DomainStep(q[i + 1..], c);
      }
    }
  }

  /** The automaton computes the shape-based phase of every input. */
  lemma {:induction false} ScanClassifies(s: string)
    ensures Scan(s) == Classify(s)
  {
    if |s| > 0 {
      var q := s[..|s| - 1];
      ScanClassifies(q);
      assert s == q + [s[|s| - 1]];
      ClassifyStep(q, s[|s| - 1]);
    }
  }

  /** The automaton accepts exactly the strings of the form `local "@" domain`. */
  lemma ValidEmailIsAddress(s: string)
    ensures ValidEmail(s) <==> IsAddress(s)
  {
    ScanClassifies(s);
    var i := FirstAt(s);
    if Classify(s) == Matched {
      assert s == s[..i] + "@" + s[i + 1..];
      assert SplitsAs(s, s[..i], s[i + 1..]);
    }
    if IsAddress(s) {
      var local: string, domain: string :| SplitsAs(s, local, domain);
      assert forall j :: 0 <= j < |local| ==> s[j] == local[j];
      FirstAtIs(s, |local|);
      assert s[..|local|] == local;
      assert s[|local| + 1..] == domain;
    }
  }

  /** The structural reading and the piece-by-piece reading of the expression agree. */
  lemma AddressIsRegex(s: string)
    ensures IsAddress(s) <==> RegexMatch(s)
  {
    if IsAddress(s) {
      var local: string, domain: string :| SplitsAs(s, local, domain);
      var k :| 0 < k < |domain| - 1 && domain[k] == '.';
      var b, c := domain[..k], domain[k + 1..];
      assert domain == b + "." + c;
      assert s == local + "@" + b + "." + c;
      assert MatchesPieces(s, local, b, c);
    }
    if RegexMatch(s) {
      var a: string, b: string, c: string :| MatchesPieces(s, a, b, c);
      var domain := b + "." + c;
      assert domain[|b|] == '.';
      assert AllInClass(domain) by {
        forall j | 0 <= j < |domain|
          ensures InClass(domain[j])
        {
          if j < |b| {
            assert domain[j] == b[j];
          } else if j > |b| {
            assert domain[j] == c[j - |b| - 1];
          }
        }
      }
      assert s == a + "@" + domain;
      assert SplitsAs(s, a, domain);
    }
  }

  /** `validEmail` accepts exactly the strings the regular expression matches. */
  lemma ValidEmailMatchesRegex(s: string)
    ensures ValidEmail(s) <==> RegexMatch(s)
  {
    ValidEmailIsAddress(s);
    AddressIsRegex(s);
  }
}
