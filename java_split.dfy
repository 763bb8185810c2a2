/** Java's `String.split(sep)` for a one-character separator that is not a
    regex metacharacter, with the default limit 0: the string is cut at
    every separator, trailing empty fields are removed, and a string with no
    separator at all comes back whole. */
module JavaSplit {

  /** Every field between separators, empty ones included. */
  function Fields(s: string, sep: char): (r: seq<string>)
    ensures |r| >= 1
    decreases |s|
  {
    if |s| == 0 then [""]
    else if s[0] == sep then [""] + Fields(s[1..], sep)
    else var rest := Fields(s[1..], sep); [[s[0]] + rest[0]] + rest[1..]
  }

  /** The fields put back together with the separator between them. */
  function Join(fields: seq<string>, sep: char): string
    requires |fields| >= 1
    decreases |fields|
  {
    if |fields| == 1 then fields[0] else fields[0] + [sep] + Join(fields[1..], sep)
  }

  /** Removes empty fields from the end, as Java does for limit 0. */
  function DropTrailingEmpty(fields: seq<string>): (r: seq<string>)
    ensures |r| <= |fields| && r == fields[..|r|]
    ensures r == [] || r[|r| - 1] != ""
    ensures forall k :: |r| <= k < |fields| ==> fields[k] == ""
    decreases |fields|
  {
    if |fields| > 0 && fields[|fields| - 1] == "" then DropTrailingEmpty(fields[..|fields| - 1])
    else fields
  }

  /** `s.split(String.valueOf(sep))` */
  function Split(s: string, sep: char): seq<string> {
    if sep !in s then [s] else DropTrailingEmpty(Fields(s, sep))
  }

  /** Joining the fields gives back the string: nothing is lost by cutting. */
  lemma {:induction false} JoinFields(s: string, sep: char)
    ensures Join(Fields(s, sep), sep) == s
    decreases |s|
  {
    if |s| > 0 {
      JoinFields(s[1..], sep);
      var rest := Fields(s[1..], sep);
      if s[0] == sep {
        assert ([""] + rest)[1..] == rest;
      } else {
        var r := [[s[0]] + rest[0]] + rest[1..];
        if |rest| > 1 {
          assert r[1..] == rest[1..];
          assert Join(rest, sep) == rest[0] + [sep] + Join(rest[1..], sep);
        }
        assert s == [s[0]] + s[1..];
      }
    }
  }

  /** No field contains the separator. */
  lemma {:induction false} FieldsFree(s: string, sep: char)
    ensures forall i :: 0 <= i < |Fields(s, sep)| ==> sep !in Fields(s, sep)[i]
    decreases |s|
  {
    if |s| > 0 {
      FieldsFree(s[1..], sep);
      var rest := Fields(s[1..], sep);
      if s[0] != sep {
        var r := Fields(s, sep);
        assert r[0] == [s[0]] + rest[0];
        forall i | 0 <= i < |r| ensures sep !in r[i] {
          if i > 0 { assert r[i] == rest[i]; }
        }
      }
    }
  }

  /** A separator-free prefix joins the first field. */
  lemma {:induction false} FieldsAfterPlain(a: string, t: string, sep: char)
    requires sep !in a
    ensures Fields(a + t, sep) == [a + Fields(t, sep)[0]] + Fields(t, sep)[1..]
    decreases |a|
  {
    if |a| > 0 {
      assert (a + t)[0] == a[0];
      assert (a + t)[1..] == a[1..] + t;
      FieldsAfterPlain(a[1..], t, sep);
      var f, r := Fields(t, sep), Fields(a[1..] + t, sep);
      assert r[0] == a[1..] + f[0] && r[1..] == f[1..];
      assert a[0] != sep;
      assert Fields(a + t, sep) == [[a[0]] + r[0]] + r[1..];
      assert [a[0]] + (a[1..] + f[0]) == a + f[0];
    } else {
      assert a + t == t;
      var f := Fields(t, sep);
      assert a + f[0] == f[0];
      assert f == [f[0]] + f[1..];
    }
  }

  /** The fields are all empty exactly when the string is all separators. */
  lemma {:induction false} FieldsAllEmpty(t: string, sep: char)
    ensures (forall k :: 0 <= k < |Fields(t, sep)| ==> Fields(t, sep)[k] == "")
        <==> (forall j :: 0 <= j < |t| ==> t[j] == sep)
    decreases |t|
  {
    if |t| > 0 {
      FieldsAllEmpty(t[1..], sep);
      var rest := Fields(t[1..], sep);
      if t[0] == sep {
        var r := Fields(t, sep);
        assert r == [""] + rest;
        if forall j :: 0 <= j < |t| ==> t[j] == sep {
          forall j | 0 <= j < |t[1..]| ensures t[1..][j] == sep { assert t[1..][j] == t[j + 1]; }
        }
        if forall j :: 0 <= j < |t[1..]| ==> t[1..][j] == sep {
          forall j | 0 <= j < |t| ensures t[j] == sep { if j > 0 { assert t[j] == t[1..][j - 1]; } }
        }
        if forall k :: 0 <= k < |rest| ==> rest[k] == "" {
          forall k | 0 <= k < |r| ensures r[k] == "" { if k > 0 { assert r[k] == rest[k - 1]; } }
        }
        if forall k :: 0 <= k < |r| ==> r[k] == "" {
          forall k | 0 <= k < |rest| ensures rest[k] == "" { assert rest[k] == r[k + 1]; }
        }
      } else {
        assert Fields(t, sep)[0] != "";
      }
    }
  }

  /** The split of a single separator between two separator-free parts,
      the second one non-empty, is exactly those two parts. */
  lemma SplitOne(a: string, b: string, sep: char)
    requires sep !in a && sep !in b && b != ""
    ensures Split(a + [sep] + b, sep) == [a, b]
  {
    var s := a + [sep] + b;
    assert s[|a|] == sep;
    FieldsAfterPlain(b, "", sep);
    assert b + "" == b;
    assert Fields([sep] + b, sep) == [""] + Fields(b, sep);
    FieldsAfterPlain(a, [sep] + b, sep);
    assert s == a + ([sep] + b);
    assert ([sep] + b)[1..] == b;
    assert Fields(s, sep) == [a + ""] + [b];
    assert a + "" == a;
  }

  /** Cutting at the first separator. */
  lemma FieldsAtFirst(s: string, sep: char, i0: nat)
    requires i0 < |s| && s[i0] == sep
    requires forall k :: 0 <= k < i0 ==> s[k] != sep
    ensures Fields(s, sep) == [s[..i0]] + Fields(s[i0 + 1..], sep)
  {
    var a, t := s[..i0], s[i0 + 1..];
    assert s == a + ([sep] + t);
    assert sep !in a by { forall k | 0 <= k < |a| ensures a[k] != sep { assert a[k] == s[k]; } }
    FieldsAfterPlain(a, [sep] + t, sep);
    assert ([sep] + t)[1..] == t;
    assert Fields([sep] + t, sep) == [""] + Fields(t, sep);
    assert a + "" == a;
  }

  /** At least two fields survive exactly when some field after the first is non-empty. */
  lemma DropKeepsTwo(f: seq<string>)
    ensures |DropTrailingEmpty(f)| >= 2 <==> exists k :: 1 <= k < |f| && f[k] != ""
  {
    var r := DropTrailingEmpty(f);
    if |r| >= 2 {
      assert f[|r| - 1] == r[|r| - 1];
    }
  }

  /** The split has at least two fields exactly when some character that is
      not the separator follows a separator. */
  lemma SplitTwoFields(s: string, sep: char)
    ensures |Split(s, sep)| >= 2 <==> exists i, j :: 0 <= i < j < |s| && s[i] == sep && s[j] != sep
  {
    if sep in s {
      var i :| 0 <= i < |s| && s[i] == sep;
      FirstOccurrence(s, sep, i);
      var i0 :| 0 <= i0 < |s| && s[i0] == sep && forall k :: 0 <= k < i0 ==> s[k] != sep;
      FieldsAtFirst(s, sep, i0);
      DropKeepsTwo(Fields(s, sep));
      if |Split(s, sep)| >= 2 {
        TwoFieldsWitness(s, sep, i0);
      } else {
        OneFieldAllSeparators(s, sep, i0);
      }
    }
  }

  /** A non-empty field after the first one is a non-separator after the first separator. */
  lemma TwoFieldsWitness(s: string, sep: char, i0: nat)
    requires i0 < |s| && s[i0] == sep
    requires Fields(s, sep) == [s[..i0]] + Fields(s[i0 + 1..], sep)
    requires exists k :: 1 <= k < |Fields(s, sep)| && Fields(s, sep)[k] != ""
    ensures exists i, j :: 0 <= i < j < |s| && s[i] == sep && s[j] != sep
  {
    var t := s[i0 + 1..];
    var f := Fields(s, sep);
    FieldsAllEmpty(t, sep);
    var k :| 1 <= k < |f| && f[k] != "";
    assert Fields(t, sep)[k - 1] == f[k];
    var j :| 0 <= j < |t| && t[j] != sep;
    assert s[i0 + 1 + j] == t[j];
  }

  /** When only the first field survives, everything after the first separator is a separator. */
  lemma OneFieldAllSeparators(s: string, sep: char, i0: nat)
    requires i0 < |s| && s[i0] == sep
    requires forall k :: 0 <= k < i0 ==> s[k] != sep
    requires Fields(s, sep) == [s[..i0]] + Fields(s[i0 + 1..], sep)
    requires !exists k :: 1 <= k < |Fields(s, sep)| && Fields(s, sep)[k] != ""
    ensures forall i, j :: 0 <= i < j < |s| && s[i] == sep ==> s[j] == sep
  {
    var t := s[i0 + 1..];
    var f := Fields(s, sep);
    FieldsAllEmpty(t, sep);
    forall k | 0 <= k < |Fields(t, sep)| ensures Fields(t, sep)[k] == "" {
      assert f[k + 1] == Fields(t, sep)[k];
    }
    forall i, j | 0 <= i < j < |s| && s[i] == sep ensures s[j] == sep {
      assert s[j] == t[j - i0 - 1];
    }
  }

  lemma FirstOccurrence(s: string, sep: char, i: nat)
    requires i < |s| && s[i] == sep
    ensures exists i0 :: 0 <= i0 < |s| && s[i0] == sep && forall k :: 0 <= k < i0 ==> s[k] != sep
    decreases i
  {
    if exists k :: 0 <= k < i && s[k] == sep {
      var k :| 0 <= k < i && s[k] == sep;
      FirstOccurrence(s, sep, k);
    }
  }
}
