/** The fixed address pattern `[\w\.\-]+@([\w\-]+\.)+[\w\-]+`, matched
    against the whole string, written as a hand-made recognizer over
    characters. `\w` without flags is `[A-Za-z0-9_]`. */
module EmailPattern {

  /** `\w`: an ASCII letter, a digit or the underscore. */
  predicate IsWordChar(c: char) {
    ('a' <= c <= 'z') || ('A' <= c <= 'Z') || ('0' <= c <= '9') || c == '_'
  }

  /** The class `[\w\.\-]` of the local part. */
  predicate IsLocalChar(c: char) {
    IsWordChar(c) || c == '.' || c == '-'
  }

  /** The class `[\w\-]` of a domain label. */
  predicate IsLabelChar(c: char) {
    IsWordChar(c) || c == '-'
  }

  /** `[\w\.\-]+` */
  predicate IsLocalPart(s: string) {
    |s| > 0 && forall i :: 0 <= i < |s| ==> IsLocalChar(s[i])
  }

  /** `[\w\-]+` */
  predicate IsLabel(s: string) {
    |s| > 0 && forall i :: 0 <= i < |s| ==> IsLabelChar(s[i])
  }

  predicate AllLabels(labels: seq<string>) {
    forall i :: 0 <= i < |labels| ==> IsLabel(labels[i])
  }

  /** `([\w\-]+\.)+[\w\-]+` read as a list: two labels or more. */
  predicate IsDomain(labels: seq<string>) {
    |labels| >= 2 && AllLabels(labels)
  }

  /** The labels joined by single dots. */
  function JoinLabels(labels: seq<string>): string
    requires |labels| > 0
  {
    if |labels| == 1 then labels[0]
    else JoinLabels(labels[..|labels| - 1]) + "." + labels[|labels| - 1]
  }

  /** The recognizer's states: nothing read yet, inside the local part,
      just after the `@`, inside the first domain label, just after a dot
      of the domain, inside a later label (the only accepting state), and
      the dead state. */
  datatype State = Start | Local | At | FirstLabel | Dot | Tail | Dead

  function Step(q: State, c: char): State {
    match q
    case Start => if IsLocalChar(c) then Local else Dead
    case Local => if IsLocalChar(c) then Local else if c == '@' then At else Dead
    case At => if IsLabelChar(c) then FirstLabel else Dead
    case FirstLabel => if IsLabelChar(c) then FirstLabel else if c == '.' then Dot else Dead
    case Dot => if IsLabelChar(c) then Tail else Dead
    case Tail => if IsLabelChar(c) then Tail else if c == '.' then Dot else Dead
    case Dead => Dead
  }

  /** The state reached from `q` after reading `s` left to right. */
  function RunFrom(q: State, s: string): State
    decreases |s|
  {
    if s == [] then q else Step(RunFrom(q, s[..|s| - 1]), s[|s| - 1])
  }

  /** `String.matches(REGX_EMAIL)`: the whole string is in the pattern. */
  predicate Matches(s: string) {
    RunFrom(Start, s) == Tail
  }

  /** What the prefix read so far looks like, for every state but Dead.
      The out-parameters are the witnesses of the decomposition. */
  lemma {:induction false} Characterize(s: string) returns (local: string, labels: seq<string>)
    ensures RunFrom(Start, s) == Start ==> s == []
    ensures RunFrom(Start, s) == Local ==> IsLocalPart(s)
    ensures RunFrom(Start, s) == At ==> IsLocalPart(local) && s == local + "@"
    ensures RunFrom(Start, s) == FirstLabel ==>
              IsLocalPart(local) && |labels| == 1 && AllLabels(labels) && s == local + "@" + labels[0]
    ensures RunFrom(Start, s) == Dot ==>
              IsLocalPart(local) && |labels| >= 1 && AllLabels(labels) && s == local + "@" + JoinLabels(labels) + "."
    ensures RunFrom(Start, s) == Tail ==>
              IsLocalPart(local) && IsDomain(labels) && s == local + "@" + JoinLabels(labels)
    decreases |s|
  {
    if s == [] {
      return "", [];
    }
    var p, c := s[..|s| - 1], s[|s| - 1];
    assert s == p + [c];
    var l, ls := Characterize(p);
    var q := RunFrom(Start, p);
    assert RunFrom(Start, s) == Step(q, c);
    match q
    case Start =>
      assert s == [c];
      local, labels := "", [];
    case Local =>
      if IsLocalChar(c) {
        local, labels := "", [];
      } else {
        local, labels := p, [];
      }
    case At =>
      local, labels := l, [[c]];
      assert s == l + "@" + [c];
    case FirstLabel =>
      if IsLabelChar(c) {
        local, labels := l, [ls[0] + [c]];
        assert s == l + "@" + (ls[0] + [c]);
      } else {
        local, labels := l, ls;
        assert ls == [ls[0]];
      }
    case Dot =>
      local, labels := l, ls + [[c]];
      assert labels[..|labels| - 1] == ls;
      assert JoinLabels(labels) == JoinLabels(ls) + "." + [c];
    case Tail =>
      if IsLabelChar(c) {
        var init, last := ls[..|ls| - 1], ls[|ls| - 1];
        assert ls == init + [last];
        local, labels := l, init + [last + [c]];
        assert labels[..|labels| - 1] == init;
        assert JoinLabels(ls) == JoinLabels(init) + "." + last;
        assert JoinLabels(labels) == JoinLabels(init) + "." + (last + [c]);
        assert labels[|labels| - 1] == last + [c];
        forall i | 0 <= i < |labels| ensures IsLabel(labels[i]) {
          if i < |labels| - 1 { assert labels[i] == ls[i]; }
        }
      } else {
        local, labels := l, ls;
      }
    case Dead =>
      local, labels := "", [];
  }

  /** Reading a concatenation is reading its parts one after the other. */
  lemma {:induction false} RunConcat(q: State, a: string, b: string)
    ensures RunFrom(q, a + b) == RunFrom(RunFrom(q, a), b)
    decreases |b|
  {
    if b == [] {
      assert a + b == a;
    } else {
      assert (a + b)[..|a + b| - 1] == a + b[..|b| - 1];
      RunConcat(q, a, b[..|b| - 1]);
    }
  }

  lemma {:induction false} LocalRun(s: string)
    requires IsLocalPart(s)
    ensures RunFrom(Start, s) == Local
    decreases |s|
  {
    if |s| > 1 {
      LocalRun(s[..|s| - 1]);
    }
  }

  /** A label read just after the `@` or inside the first label stays in the
      first label; after a dot or inside a later label, in a later one. */
  lemma {:induction false} LabelRun(q: State, s: string)
    requires q == At || q == FirstLabel || q == Dot || q == Tail
    requires IsLabel(s)
    ensures RunFrom(q, s) == if q == At || q == FirstLabel then FirstLabel else Tail
    decreases |s|
  {
    if |s| > 1 {
      LabelRun(q, s[..|s| - 1]);
    } else {
      assert s[..0] == [];
    }
  }

  lemma {:induction false} DomainRun(prefix: string, labels: seq<string>)
    requires RunFrom(Start, prefix) == At
    requires |labels| >= 1 && AllLabels(labels)
    ensures RunFrom(Start, prefix + JoinLabels(labels)) == if |labels| == 1 then FirstLabel else Tail
    decreases |labels|
  {
    RunConcat(Start, prefix, JoinLabels(labels));
    if |labels| == 1 {
      LabelRun(At, labels[0]);
    } else {
      var init, last := labels[..|labels| - 1], labels[|labels| - 1];
      assert AllLabels(init) by {
        forall i | 0 <= i < |init| ensures IsLabel(init[i]) { assert init[i] == labels[i]; }
      }
      DomainRun(prefix, init);
      var q := RunFrom(Start, prefix + JoinLabels(init));
      assert prefix + JoinLabels(labels) == (prefix + JoinLabels(init)) + ("." + last);
      RunConcat(Start, prefix + JoinLabels(init), "." + last);
      RunConcat(q, ".", last);
      assert ['.'][..0] == [];
      assert RunFrom(q, ".") == Dot;
      LabelRun(Dot, last);
    }
  }

  /** Soundness of the recognizer against the pattern's structure. */
  lemma MatchesSound(s: string) returns (local: string, labels: seq<string>)
    requires Matches(s)
    ensures IsLocalPart(local) && IsDomain(labels)
    ensures s == local + "@" + JoinLabels(labels)
  {
    local, labels := Characterize(s);
  }

  /** Completeness: every local part, `@` and two or more labels joined by
      dots is accepted. */
  lemma MatchesComplete(local: string, labels: seq<string>)
    requires IsLocalPart(local) && IsDomain(labels)
    ensures Matches(local + "@" + JoinLabels(labels))
  {
    LocalRun(local);
    RunConcat(Start, local, "@");
    assert "@"[..0] == [];
    DomainRun(local + "@", labels);
  }

  /** A domain text as the pattern admits it: label characters and dots, at
      least one dot, none at either end and no two in a row. */
  predicate IsDottedDomain(d: string) {
    && |d| > 0
    && '.' in d
    && d[0] != '.'
    && d[|d| - 1] != '.'
    && (forall k :: 0 <= k < |d| - 1 ==> !(d[k] == '.' && d[k + 1] == '.'))
    && (forall k :: 0 <= k < |d| ==> IsLabelChar(d[k]) || d[k] == '.')
  }

  lemma {:induction false} JoinShape(labels: seq<string>)
    requires |labels| >= 1 && AllLabels(labels)
    ensures var d := JoinLabels(labels);
      && |d| > 0 && d[0] != '.' && d[|d| - 1] != '.'
      && (|labels| >= 2 ==> '.' in d)
      && (forall k :: 0 <= k < |d| - 1 ==> !(d[k] == '.' && d[k + 1] == '.'))
      && (forall k :: 0 <= k < |d| ==> IsLabelChar(d[k]) || d[k] == '.')
    decreases |labels|
  {
    if |labels| > 1 {
      var init, last := labels[..|labels| - 1], labels[|labels| - 1];
      assert AllLabels(init) by {
        forall i | 0 <= i < |init| ensures IsLabel(init[i]) { assert init[i] == labels[i]; }
      }
      JoinShape(init);
      var a := JoinLabels(init);
      var d := JoinLabels(labels);
      assert d == a + "." + last;
      assert d[|a|] == '.';
      assert IsLabel(last);
      forall k | 0 <= k < |d| ensures IsLabelChar(d[k]) || d[k] == '.' {
        if k < |a| { assert d[k] == a[k]; }
        else if k > |a| { assert d[k] == last[k - |a| - 1]; }
      }
      forall k | 0 <= k < |d| - 1 ensures !(d[k] == '.' && d[k + 1] == '.') {
        if k + 1 < |a| {
          assert d[k] == a[k] && d[k + 1] == a[k + 1];
        } else if k + 1 == |a| {
          assert d[k] == a[|a| - 1];
        } else if k == |a| {
          assert d[k + 1] == last[0];
        } else {
          assert d[k] == last[k - |a| - 1];
        }
      }
    }
  }

  /** What an accepted address looks like: exactly one `@`, a non-empty
      local part of `[A-Za-z0-9_.-]` before it, and after it a domain of at
      least two non-empty labels joined by single dots. */
  lemma AcceptedShape(s: string) returns (at: nat)
    requires Matches(s)
    ensures 0 < at < |s| && s[at] == '@'
    ensures forall j :: 0 <= j < |s| && s[j] == '@' ==> j == at
    ensures IsLocalPart(s[..at])
    ensures IsDottedDomain(s[at + 1..])
  {
    var local, labels := MatchesSound(s);
    JoinShape(labels);
    at := |local|;
    var d := JoinLabels(labels);
    assert s[..at] == local;
    assert s[at + 1..] == d;
    forall j | 0 <= j < |s| && j != at ensures s[j] != '@' {
      if j < at {
        assert s[j] == local[j];
      } else if j > at {
        assert s[j] == d[j - at - 1];
      }
    }
  }
}
