/**
 The e-mail shape check of the user registry. The registry accepts an address
 when it matches the fixed pattern
     ^[a-zA-Z0-9]+(?:[@][a-zA-Z0-9]+)(?:[.][a-zA-Z0-9]+)+$
 that is: a non-empty run of letters and digits, an '@', a non-empty run of
 letters and digits, and one or more groups of a '.' followed by a non-empty
 run of letters and digits, with nothing before or after.

 The recognizer below is a hand-written automaton over the characters of the
 address. It is related to two independent descriptions of the same language:
 a character-level one (WellFormed, proved equivalent in IsEmailValidIffWellFormed)
 and the pattern's own structure (AcceptsPattern, and its converse ValidHasPattern).
 */
module Email {

  /** The character class [a-zA-Z0-9]. */
  predicate IsAlnum(c: char) {
    ('a' <= c <= 'z') || ('A' <= c <= 'Z') || ('0' <= c <= '9')
  }

  /** Where the automaton is within the pattern. */
  datatype Phase =
    | Start   // nothing read yet
    | Local   // inside the local part, at least one character read
    | At      // just read the '@'
    | Domain  // inside the first domain label, at least one character read
    | Dot     // just read a '.'
    | Suffix  // inside a label that follows a '.': the only accepting phase
    | Reject  // the input can no longer match

  function Step(p: Phase, c: char): Phase {
    match p
    case Start => if IsAlnum(c) then Local else Reject
    case Local => if IsAlnum(c) then Local else if c == '@' then At else Reject
    case At => if IsAlnum(c) then Domain else Reject
    case Domain => if IsAlnum(c) then Domain else if c == '.' then Dot else Reject
    case Dot => if IsAlnum(c) then Suffix else Reject
    case Suffix => if IsAlnum(c) then Suffix else if c == '.' then Dot else Reject
    case Reject => Reject
  }

  /** The phase reached from p after reading all of s. */
  function Run(p: Phase, s: string): Phase
    decreases |s|
  {
    if s == [] then p else Run(Step(p, s[0]), s[1..])
  }

  /** isEmailValid: the whole address must be read and end in an accepting phase. */
  predicate IsEmailValid(email: string) {
    Run(Start, email) == Suffix
  }

  // ---------------------------------------------------------------------------
  // A character-level description of the accepted addresses

  ghost predicate AllAlnum(w: string) {
    forall k :: 0 <= k < |w| ==> IsAlnum(w[k])
  }

  /** A non-empty run of letters and digits. */
  ghost predicate IsLabel(w: string) {
    |w| > 0 && AllAlnum(w)
  }

  ghost predicate NextIsAlnum(t: string, k: int) {
    0 <= k && k + 1 < |t| && IsAlnum(t[k + 1])
  }

  /** Letters, digits and dots, where every dot is followed by a letter or digit. */
  ghost predicate DottedTail(t: string) {
    forall k :: 0 <= k < |t| ==> IsAlnum(t[k]) || (t[k] == '.' && NextIsAlnum(t, k))
  }

  /** A domain: starts with a letter or digit, contains at least one dot, and its
      dots separate non-empty runs of letters and digits. */
  ghost predicate IsDomain(d: string) {
    |d| > 0 && IsAlnum(d[0]) && DottedTail(d) && '.' in d
  }

  /** The accepted addresses: a label, one '@', a domain. */
  ghost predicate WellFormed(s: string) {
    exists at :: 0 <= at < |s| && s[at] == '@' && IsLabel(s[..at]) && IsDomain(s[at + 1..])
  }

  /** What each phase still accepts, in the character-level terms above. */
  ghost predicate Accepts(p: Phase, t: string) {
    match p
    case Start => |t| > 0 && IsAlnum(t[0]) && LocalRest(t)
    case Local => LocalRest(t)
    case At => IsDomain(t)
    case Domain => DottedTail(t) && '.' in t
    case Dot => |t| > 0 && IsAlnum(t[0]) && DottedTail(t)
    case Suffix => DottedTail(t)
    case Reject => false
  }

  ghost predicate LocalRest(t: string) {
    exists at :: SplitsAt(t, at)
  }

  /** t is letters and digits up to an '@' at position at, and a domain after it. */
  ghost predicate SplitsAt(t: string, at: int) {
    0 <= at < |t| && t[at] == '@' && AllAlnum(t[..at]) && IsDomain(t[at + 1..])
  }

  // ---------------------------------------------------------------------------
  // The automaton recognizes exactly the well-formed addresses

  lemma DottedTailCons(c: char, t: string)
    ensures DottedTail([c] + t) <==>
              (IsAlnum(c) && DottedTail(t)) || (c == '.' && |t| > 0 && IsAlnum(t[0]) && DottedTail(t))
  {
    var ct := [c] + t;
    if DottedTail(ct) {
      forall k | 0 <= k < |t| ensures IsAlnum(t[k]) || (t[k] == '.' && NextIsAlnum(t, k)) {
        assert ct[k + 1] == t[k];
        assert IsAlnum(ct[k + 1]) || (ct[k + 1] == '.' && NextIsAlnum(ct, k + 1));
      }
      assert IsAlnum(ct[0]) || (ct[0] == '.' && NextIsAlnum(ct, 0));
    }
    if (IsAlnum(c) || (c == '.' && |t| > 0 && IsAlnum(t[0]))) && DottedTail(t) {
      forall k | 0 <= k < |ct| ensures IsAlnum(ct[k]) || (ct[k] == '.' && NextIsAlnum(ct, k)) {
        if k > 0 {
          assert ct[k] == t[k - 1];
          assert IsAlnum(t[k - 1]) || (t[k - 1] == '.' && NextIsAlnum(t, k - 1));
        }
      }
    }
  }

  lemma AllAlnumCons(c: char, w: string)
    ensures AllAlnum([c] + w) <==> IsAlnum(c) && AllAlnum(w)
  {
    var cw := [c] + w;
    assert cw[0] == c;
    if AllAlnum(cw) {
      forall k | 0 <= k < |w| ensures IsAlnum(w[k]) {
        assert cw[k + 1] == w[k];
      }
    }
  }

  lemma SplitsAtCons(c: char, t: string, at: int)
    requires IsAlnum(c)
    ensures SplitsAt([c] + t, at + 1) <==> SplitsAt(t, at)
  {
    var ct := [c] + t;
    assert ct[0] == c;
    if 0 <= at < |t| {
      assert ct[at + 1] == t[at];
      assert ct[..at + 1] == [c] + t[..at];
      AllAlnumCons(c, t[..at]);
      assert ct[at + 2..] == t[at + 1..];
    }
  }

  lemma LocalRestAlnum(c: char, t: string)
    requires IsAlnum(c)
    ensures LocalRest([c] + t) <==> LocalRest(t)
  {
    var ct := [c] + t;
    if LocalRest(ct) {
      var at :| SplitsAt(ct, at);
      assert at != 0;
      SplitsAtCons(c, t, at - 1);
    }
    if LocalRest(t) {
      var at :| SplitsAt(t, at);
      SplitsAtCons(c, t, at);
    }
  }

  lemma LocalRestAt(t: string)
    ensures LocalRest(['@'] + t) <==> IsDomain(t)
  {
    var ct := ['@'] + t;
    if LocalRest(ct) {
      var at :| SplitsAt(ct, at);
      assert ct[1..] == t;
    }
    if IsDomain(t) {
      assert ct[..0] == [] && ct[1..] == t;
      assert SplitsAt(ct, 0);
    }
  }

  lemma LocalRestOther(c: char, t: string)
    requires !IsAlnum(c) && c != '@'
    ensures !LocalRest([c] + t)
  {
    var ct := [c] + t;
    forall at ensures !SplitsAt(ct, at) {
      if 0 < at < |ct| {
        assert ct[..at][0] == c;
      }
    }
  }

  lemma LocalRestCons(c: char, t: string)
    ensures LocalRest([c] + t) <==> (IsAlnum(c) && LocalRest(t)) || (c == '@' && IsDomain(t))
  {
    if IsAlnum(c) {
      LocalRestAlnum(c, t);
    } else if c == '@' {
      LocalRestAt(t);
    } else {
      LocalRestOther(c, t);
    }
  }

  /** Reading one character moves between the phases' languages. */
  lemma StepAccepts(p: Phase, c: char, t: string)
    ensures Accepts(p, [c] + t) <==> Accepts(Step(p, c), t)
  {
    var ct := [c] + t;
    assert ct[0] == c;
    match p
    case Start =>
      LocalRestCons(c, t);
    case Local =>
      LocalRestCons(c, t);
    case At =>
      DottedTailCons(c, t);
      assert '.' in ct <==> c == '.' || '.' in t;
    case Domain =>
      DottedTailCons(c, t);
      assert '.' in ct <==> c == '.' || '.' in t;
    case Dot =>
      DottedTailCons(c, t);
    case Suffix =>
      DottedTailCons(c, t);
    case Reject =>
  }

  lemma {:induction false} RunAccepts(p: Phase, t: string)
    ensures Run(p, t) == Suffix <==> Accepts(p, t)
    decreases |t|
  {
    if t == [] {
      assert DottedTail(t);
    } else {
      assert t == [t[0]] + t[1..];
      StepAccepts(p, t[0], t[1..]);
      RunAccepts(Step(p, t[0]), t[1..]);
    }
  }

  /** The recognizer accepts an address exactly when it is well formed. */
  lemma IsEmailValidIffWellFormed(s: string)
    ensures IsEmailValid(s) <==> WellFormed(s)
  {
    RunAccepts(Start, s);
    if WellFormed(s) {
      var at :| 0 <= at < |s| && s[at] == '@' && IsLabel(s[..at]) && IsDomain(s[at + 1..]);
      assert s[0] == s[..at][0];
      assert SplitsAt(s, at);
    }
    if Accepts(Start, s) {
      var at :| SplitsAt(s, at);
      assert at != 0;
      assert IsLabel(s[..at]);
    }
  }

  // ---------------------------------------------------------------------------
  // The pattern's own structure

  /** Every element of labels is a label. */
  ghost predicate AllLabels(labels: seq<string>) {
    labels == [] || (IsLabel(labels[0]) && AllLabels(labels[1..]))
  }

  /** ".l1.l2...ln": each label preceded by a dot. */
  function JoinDots(labels: seq<string>): string {
    if labels == [] then "" else "." + labels[0] + JoinDots(labels[1..])
  }

  lemma {:induction false} RunAppend(p: Phase, a: string, b: string)
    ensures Run(p, a + b) == Run(Run(p, a), b)
    decreases |a|
  {
    if a != [] {
      assert (a + b)[0] == a[0];
      assert (a + b)[1..] == a[1..] + b;
      RunAppend(Step(p, a[0]), a[1..], b);
    } else {
      assert a + b == b;
    }
  }

  /** The phase that reads the letters and digits of the part p is in or about to enter. */
  function LabelPhase(p: Phase): Phase {
    match p
    case Start => Local
    case Local => Local
    case At => Domain
    case Domain => Domain
    case Dot => Suffix
    case Suffix => Suffix
    case Reject => Reject
  }

  /** A run of letters and digits moves into (and stays in) the phase that reads one. */
  lemma {:induction false} RunLabel(p: Phase, w: string)
    requires IsLabel(w)
    ensures Run(p, w) == LabelPhase(p)
    decreases |w|
  {
    if |w| > 1 {
      assert IsAlnum(w[0]);
      assert IsLabel(w[1..]) by {
        forall k | 0 <= k < |w[1..]| ensures IsAlnum(w[1..][k]) {
          assert w[1..][k] == w[k + 1];
        }
      }
      RunLabel(Step(p, w[0]), w[1..]);
    } else {
      assert IsAlnum(w[0]);
      assert w[1..] == [];
      assert Run(p, w) == Run(Step(p, w[0]), []);
    }
  }

  lemma {:induction false} RunJoinDots(p: Phase, labels: seq<string>)
    requires p == Domain || p == Suffix
    requires AllLabels(labels)
    ensures Run(p, JoinDots(labels)) == (if labels == [] then p else Suffix)
    decreases |labels|
  {
    if labels != [] {
      var rest := JoinDots(labels[1..]);
      assert JoinDots(labels) == "." + (labels[0] + rest);
      RunAppend(p, ".", labels[0] + rest);
      assert Run(p, ".") == Dot;
      RunAppend(Dot, labels[0], rest);
      RunLabel(Dot, labels[0]);
      RunJoinDots(Suffix, labels[1..]);
    }
  }

  lemma DomainAccepted(domain: string, labels: seq<string>)
    requires IsLabel(domain)
    requires |labels| > 0 && AllLabels(labels)
    ensures Run(At, domain + JoinDots(labels)) == Suffix
  {
    RunAppend(At, domain, JoinDots(labels));
    RunLabel(At, domain);
    RunJoinDots(Domain, labels);
  }

  /** Every string of the shape label "@" label ("." label)+ is accepted. */
  lemma AcceptsPattern(local: string, domain: string, labels: seq<string>)
    requires IsLabel(local) && IsLabel(domain)
    requires |labels| > 0 && AllLabels(labels)
    ensures IsEmailValid(local + "@" + domain + JoinDots(labels))
  {
    var rest := domain + JoinDots(labels);
    var at := ['@'] + rest;
    assert Run(Local, at) == Suffix by {
      assert at[0] == '@' && at[1..] == rest;
      DomainAccepted(domain, labels);
    }
    assert Run(Start, local + at) == Suffix by {
      RunAppend(Start, local, at);
      RunLabel(Start, local);
    }
    assert local + "@" + domain + JoinDots(labels) == local + at;
  }

  lemma {:induction false} RunReject(t: string)
    ensures Run(Reject, t) == Reject
    decreases |t|
  {
    if t != [] {
      RunReject(t[1..]);
    }
  }

  /** A label followed by one more leading character is still a label. */
  lemma LabelCons(c: char, w: string)
    requires IsAlnum(c) && AllAlnum(w)
    ensures IsLabel([c] + w)
  {
  }

  /** Prepending one label to a list of labels. */
  lemma JoinDotsCons(head: string, ls: seq<string>)
    requires IsLabel(head) && AllLabels(ls)
    ensures AllLabels([head] + ls)
    ensures JoinDots([head] + ls) == "." + head + JoinDots(ls)
  {
  }

  /** What the accepting phase reads to the end: further letters and digits of the
      current label, then zero or more dotted labels. */
  lemma {:induction false} SuffixParse(t: string) returns (w: string, labels: seq<string>)
    requires Run(Suffix, t) == Suffix
    ensures AllAlnum(w) && AllLabels(labels)
    ensures t == w + JoinDots(labels)
    decreases |t|
  {
    if t == [] {
      w, labels := "", [];
    } else if IsAlnum(t[0]) {
      var w', ls := SuffixParse(t[1..]);
      AllAlnumCons(t[0], w');
      w, labels := [t[0]] + w', ls;
      assert t == [t[0]] + t[1..];
    } else if t[0] != '.' {
      RunReject(t[1..]);
      assert false;
    } else if |t| == 1 {
      assert false;
    } else if !IsAlnum(t[1]) {
      RunReject(t[2..]);
      assert false;
    } else {
      assert Run(Dot, t[1..]) == Run(Suffix, t[2..]);
      var w', ls := SuffixParse(t[2..]);
      var head := [t[1]] + w';
      LabelCons(t[1], w');
      JoinDotsCons(head, ls);
      w, labels := "", [head] + ls;
      assert t == ['.'] + head + JoinDots(ls) by {
        assert t == [t[0]] + ([t[1]] + t[2..]);
      }
    }
  }

  /** What the first domain label's phase reads to the end: further letters and
      digits, then one or more dotted labels. */
  lemma {:induction false} DomainParse(t: string) returns (w: string, labels: seq<string>)
    requires Run(Domain, t) == Suffix
    ensures AllAlnum(w) && |labels| > 0 && AllLabels(labels)
    ensures t == w + JoinDots(labels)
    decreases |t|
  {
    if t == [] {
      assert false;
    } else if IsAlnum(t[0]) {
      var w', ls := DomainParse(t[1..]);
      AllAlnumCons(t[0], w');
      w, labels := [t[0]] + w', ls;
      assert t == [t[0]] + t[1..];
    } else if t[0] != '.' {
      RunReject(t[1..]);
      assert false;
    } else if |t| == 1 {
      assert false;
    } else if !IsAlnum(t[1]) {
      RunReject(t[2..]);
      assert false;
    } else {
      assert Run(Dot, t[1..]) == Run(Suffix, t[2..]);
      var w', ls := SuffixParse(t[2..]);
      var head := [t[1]] + w';
      LabelCons(t[1], w');
      JoinDotsCons(head, ls);
      w, labels := "", [head] + ls;
      assert t == ['.'] + head + JoinDots(ls) by {
        assert t == [t[0]] + ([t[1]] + t[2..]);
      }
    }
  }

  /** Leaving the local part: an accepted rest that does not continue the local part
      is an '@', a letter or digit, and then what the first domain label's phase accepts. */
  lemma LocalExit(t: string)
    requires Run(Local, t) == Suffix
    requires t != [] && !IsAlnum(t[0])
    ensures t[0] == '@' && |t| > 1 && IsAlnum(t[1]) && Run(Domain, t[2..]) == Suffix
  {
    if t[0] != '@' {
      RunReject(t[1..]);
      assert false;
    } else if |t| == 1 {
      assert false;
    } else if !IsAlnum(t[1]) {
      RunReject(t[2..]);
      assert false;
    } else {
      assert Run(At, t[1..]) == Run(Domain, t[2..]);
    }
  }

  /** The '@' and what follows it: the first domain label and the dotted labels. */
  lemma LocalParseAt(t: string) returns (domain: string, labels: seq<string>)
    requires |t| > 1 && t[0] == '@' && IsAlnum(t[1]) && Run(Domain, t[2..]) == Suffix
    ensures IsLabel(domain) && |labels| > 0 && AllLabels(labels)
    ensures t == "@" + domain + JoinDots(labels)
  {
    var w', ls := DomainParse(t[2..]);
    LabelCons(t[1], w');
    domain, labels := [t[1]] + w', ls;
    assert t == [t[0]] + ([t[1]] + t[2..]);
  }

  /** What the local part's phase reads to the end: further letters and digits,
      the '@', the first domain label and one or more dotted labels. */
  lemma {:induction false} LocalParse(t: string) returns (w: string, domain: string, labels: seq<string>)
    requires Run(Local, t) == Suffix
    ensures AllAlnum(w) && IsLabel(domain) && |labels| > 0 && AllLabels(labels)
    ensures t == w + ("@" + domain + JoinDots(labels))
    decreases |t|
  {
    if t == [] {
      assert false;
    } else if IsAlnum(t[0]) {
      var w', d, ls := LocalParse(t[1..]);
      AllAlnumCons(t[0], w');
      w, domain, labels := [t[0]] + w', d, ls;
      assert t == [t[0]] + t[1..];
    } else {
      LocalExit(t);
      w := "";
      domain, labels := LocalParseAt(t);
    }
  }

  /** Every accepted address has the shape label "@" label ("." label)+: the
      converse of AcceptsPattern, with the parts returned. */
  lemma ValidHasPattern(s: string) returns (local: string, domain: string, labels: seq<string>)
    requires IsEmailValid(s)
    ensures IsLabel(local) && IsLabel(domain) && |labels| > 0 && AllLabels(labels)
    ensures s == local + "@" + domain + JoinDots(labels)
  {
    if s == [] {
      assert false;
    } else if !IsAlnum(s[0]) {
      RunReject(s[1..]);
      assert false;
    } else {
      var w, d, ls := LocalParse(s[1..]);
      LabelCons(s[0], w);
      local, domain, labels := [s[0]] + w, d, ls;
      assert s == [s[0]] + s[1..];
    }
  }

  // ---------------------------------------------------------------------------
  // Examples

  lemma AcceptedExamples()
    ensures IsEmailValid("a@b.c")
    ensures IsEmailValid("a@b.c.d")
  {
  }

  lemma AliceAccepted()
    ensures IsEmailValid("alice@x.com")
  {
  }

  lemma RejectedExamples()
    ensures !IsEmailValid("abc")
    ensures !IsEmailValid("a@b")
    ensures !IsEmailValid("@b.c")
    ensures !IsEmailValid("a.b@c.d")
    ensures !IsEmailValid("")
  {
  }
}
