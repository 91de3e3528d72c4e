/**
 * The string operations the transformer relies on, with the meaning that
 * Rust's `str` gives them: `starts_with`, `ends_with`, `split` on a string
 * pattern, `join`, and the ordering of `String` keys in a `BTreeMap`.
 * A string is a sequence of Unicode scalar values.
 */
module Strings {

  /** `s.starts_with(prefix)`: `s` is `prefix` followed by some text. */
  predicate StartsWith(s: string, prefix: string)
    ensures StartsWith(s, prefix) <==> exists t :: s == prefix + t
  {
    if |prefix| <= |s| && s[..|prefix|] == prefix then
      assert s == prefix + s[|prefix|..];
      true
    else
      false
  }

  /** `s.ends_with(suffix)`: `s` is some text followed by `suffix`. */
  predicate EndsWith(s: string, suffix: string)
    ensures EndsWith(s, suffix) <==> exists t :: s == t + suffix
  {
    if |suffix| <= |s| && s[|s| - |suffix|..] == suffix then
      assert s == s[..|s| - |suffix|] + suffix;
      true
    else
      false
  }

  /** `s.contains(sub)`: `sub` occurs at some position of `s`. */
  predicate Contains(s: string, sub: string)
    decreases |s|
  {
    |sub| <= |s| && (s[..|sub|] == sub || Contains(s[1..], sub))
  }

  /**
   * `s.split(sep)` collected into a vector: the pieces between the
   * occurrences of `sep`, found from left to right without overlap.
   * Like Rust's iterator it always yields at least one piece.
   */
  function Split(s: string, sep: string): (pieces: seq<string>)
    requires sep != []
    ensures pieces != []
    decreases |s|
  {
    if |s| < |sep| then [s]
    else if s[..|sep|] == sep then [""] + Split(s[|sep|..], sep)
    else
      var rest := Split(s[1..], sep);
      [[s[0]] + rest[0]] + rest[1..]
  }

  /** `pieces.join(sep)` */
  function Join(pieces: seq<string>, sep: string): string {
    if pieces == [] then ""
    else if |pieces| == 1 then pieces[0]
    else pieces[0] + sep + Join(pieces[1..], sep)
  }

  /** Joining the pieces of a split with the same separator gives the text back. */
  lemma {:induction false} JoinSplit(s: string, sep: string)
    requires sep != []
    ensures Join(Split(s, sep), sep) == s
    decreases |s|
  {
    if |s| < |sep| {
    } else if s[..|sep|] == sep {
      var tail := s[|sep|..];
      JoinSplit(tail, sep);
      assert s == sep + tail;
    } else {
      var rest := Split(s[1..], sep);
      JoinSplit(s[1..], sep);
      JoinConsHead(s[0], rest, sep);
      assert s == [s[0]] + s[1..];
    }
  }

  /** Putting a character in front of the first piece puts it in front of the join. */
  lemma JoinConsHead(c: char, pieces: seq<string>, sep: string)
    requires pieces != []
    ensures Join([[c] + pieces[0]] + pieces[1..], sep) == [c] + Join(pieces, sep)
  {
  }

  /** The first piece of a split is a prefix of the text. */
  lemma {:induction false} SplitHeadIsPrefix(s: string, sep: string)
    requires sep != []
    ensures StartsWith(s, Split(s, sep)[0])
    decreases |s|
  {
    if |s| < |sep| {
    } else if s[..|sep|] == sep {
    } else {
      SplitHeadIsPrefix(s[1..], sep);
    }
  }

  /** No piece of a split contains the separator. */
  lemma {:induction false} SplitPiecesAvoidSep(s: string, sep: string)
    requires sep != []
    ensures forall i :: 0 <= i < |Split(s, sep)| ==> !Contains(Split(s, sep)[i], sep)
    decreases |s|
  {
    var pieces := Split(s, sep);
    if |s| < |sep| {
      assert !Contains(s, sep);
    } else if s[..|sep|] == sep {
      SplitPiecesAvoidSep(s[|sep|..], sep);
      assert forall i :: 1 <= i < |pieces| ==> pieces[i] == Split(s[|sep|..], sep)[i - 1];
    } else {
      var rest := Split(s[1..], sep);
      SplitPiecesAvoidSep(s[1..], sep);
      SplitHeadIsPrefix(s[1..], sep);
      var head := [s[0]] + rest[0];
      assert StartsWith(s, head) by {
        assert s == [s[0]] + s[1..];
      }
      assert !Contains(head, sep) by {
        if |sep| <= |head| {
          assert head[..|sep|] == s[..|sep|];
          assert head[1..] == rest[0];
        }
      }
      assert forall i :: 1 <= i < |pieces| ==> pieces[i] == rest[i];
    }
  }

  /** A text without the separator's first character does not contain it. */
  lemma {:induction false} ContainsFirstChar(s: string, sep: string)
    requires sep != []
    requires Contains(s, sep)
    ensures sep[0] in s
    decreases |s|
  {
    if s[..|sep|] == sep {
      assert s[0] == sep[0];
    } else {
      ContainsFirstChar(s[1..], sep);
    }
  }

  /**
   * A separator of two different characters cannot overlap itself, so a
   * piece free of it, followed by it, is split off as the first piece.
   */
  lemma {:induction false} SplitAfterPiece(p: string, t: string, sep: string)
    requires |sep| == 2 && sep[0] != sep[1]
    requires !Contains(p, sep)
    ensures Split(p + sep + t, sep) == [p] + Split(t, sep)
    decreases |p|
  {
    var s := p + sep + t;
    if p == [] {
      assert s == sep + t;
      assert s[..|sep|] == sep;
      assert s[|sep|..] == t;
    } else {
      assert s[..2] != sep by {
        if |p| == 1 {
          assert s[1] == sep[0];
        } else {
          assert s[..2] == p[..2];
        }
      }
      assert !Contains(p[1..], sep);
      SplitAfterPiece(p[1..], t, sep);
      assert s[1..] == p[1..] + sep + t;
      assert [s[0]] + p[1..] == p;
    }
  }

  /** Text that does not contain the separator splits into itself alone. */
  lemma {:induction false} SplitWithoutSep(t: string, sep: string)
    requires sep != []
    requires !Contains(t, sep)
    ensures Split(t, sep) == [t]
    decreases |t|
  {
    if |t| >= |sep| {
      SplitWithoutSep(t[1..], sep);
      assert [t[0]] + t[1..] == t;
    }
  }

  /**
   * For a two-character separator whose characters differ, the split is the
   * only way to cut a text into separator-free pieces that join back to it.
   */
  lemma {:induction false} SplitUnique(pieces: seq<string>, sep: string)
    requires |sep| == 2 && sep[0] != sep[1]
    requires pieces != []
    requires forall i :: 0 <= i < |pieces| ==> !Contains(pieces[i], sep)
    ensures Split(Join(pieces, sep), sep) == pieces
    decreases |pieces|
  {
    if |pieces| == 1 {
      SplitWithoutSep(pieces[0], sep);
    } else {
      SplitUnique(pieces[1..], sep);
      SplitAfterPiece(pieces[0], Join(pieces[1..], sep), sep);
      assert [pieces[0]] + pieces[1..] == pieces;
    }
  }

  /**
   * `a < b` for Rust `String`s: lexicographic comparison, where a proper
   * prefix comes first. Comparing UTF-8 bytes orders scalar values the same
   * way as comparing the values themselves.
   */
  predicate Less(a: string, b: string) {
    if a == [] then b != []
    else b != [] && (a[0] < b[0] || (a[0] == b[0] && Less(a[1..], b[1..])))
  }

  lemma {:induction false} LessIrreflexive(a: string)
    ensures !Less(a, a)
  {
    if a != [] {
      LessIrreflexive(a[1..]);
    }
  }

  lemma {:induction false} LessTransitive(a: string, b: string, c: string)
    requires Less(a, b) && Less(b, c)
    ensures Less(a, c)
  {
    if a != [] && a[0] == b[0] && b[0] == c[0] {
      LessTransitive(a[1..], b[1..], c[1..]);
    }
  }

  /** Any two different strings are ordered one way or the other. */
  lemma {:induction false} LessTotal(a: string, b: string)
    requires a != b
    ensures Less(a, b) || Less(b, a)
  {
    if a != [] && b != [] && a[0] == b[0] {
      assert a[1..] != b[1..] by {
        assert a == [a[0]] + a[1..] && b == [b[0]] + b[1..];
      }
      LessTotal(a[1..], b[1..]);
    }
  }
}
