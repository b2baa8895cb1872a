/** JavaScript's split on one character, and what it does to joined text. */
module Strings {
  /** s.split(sep): always at least one part. */
  function Split(s: string, sep: char): (parts: seq<string>)
    ensures |parts| >= 1
  {
    if s == "" then [""]
    else
      var rest := Split(s[1..], sep);
      if s[0] == sep then [""] + rest else [[s[0]] + rest[0]] + rest[1..]
  }

  /** A separator-free text is one part. */
  lemma {:induction false} SplitWhole(s: string, sep: char)
    requires sep !in s
    ensures Split(s, sep) == [s]
  {
    if s != "" {
      assert s[0] in s;
      assert forall c | c in s[1..] :: c in s;
      SplitWhole(s[1..], sep);
      assert [s[0]] + s[1..] == s;
    }
  }

  /** The first part ends at the first separator. */
  lemma {:induction false} SplitFirst(a: string, sep: char, rest: string, s: string)
    requires sep !in a && s == a + [sep] + rest
    ensures Split(s, sep) == [a] + Split(rest, sep)
  {
    if a == "" {
      assert s[1..] == rest;
    } else {
      assert a[0] in a;
      assert forall c | c in a[1..] :: c in a;
      assert s[1..] == a[1..] + [sep] + rest;
      SplitFirst(a[1..], sep, rest, s[1..]);
      var tail := Split(s[1..], sep);
      assert tail[0] == a[1..] && tail[1..] == Split(rest, sep);
      assert [s[0]] + a[1..] == a;
    }
  }

  lemma {:induction false} SplitParts(s: string, sep: char, i: nat)
    requires i < |Split(s, sep)|
    ensures sep !in Split(s, sep)[i]
  {
    if s != "" {
      var rest := Split(s[1..], sep);
      if s[0] == sep {
        if i > 0 {
          SplitParts(s[1..], sep, i - 1);
        }
      } else {
        SplitParts(s[1..], sep, i);
        SplitParts(s[1..], sep, 0);
      }
    }
  }

  /** Splitting gives one part exactly when there is no separator. */
  lemma {:induction false} SplitCount(s: string, sep: char)
    ensures |Split(s, sep)| == 1 <==> sep !in s
  {
    if s != "" {
      SplitCount(s[1..], sep);
      assert sep in s <==> s[0] == sep || sep in s[1..];
    }
  }

  /** parts.join(sep). */
  function Joined(parts: seq<string>, sep: char): string {
    if parts == [] then ""
    else if |parts| == 1 then parts[0]
    else parts[0] + [sep] + Joined(parts[1..], sep)
  }

  /** Joining undoes splitting. */
  lemma {:induction false} SplitJoins(s: string, sep: char)
    ensures Joined(Split(s, sep), sep) == s
  {
    if s != "" {
      var rest := Split(s[1..], sep);
      SplitJoins(s[1..], sep);
      assert s == [s[0]] + s[1..];
      if s[0] == sep {
        assert Split(s, sep)[1..] == rest;
      } else {
        assert Split(s, sep)[1..] == rest[1..];
        assert |rest| == 1 ==> Joined(rest, sep) == rest[0];
      }
    }
  }
}
