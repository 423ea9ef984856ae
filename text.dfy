/** Splitting text on a one-character separator and joining it back, as
    PHP's explode()/implode() do and as the tab- and comma-separated formats
    of the history backend use them. */
module Text {

  /** The pieces of `s` between occurrences of `sep`; there is always at
      least one piece, and an empty text gives one empty piece. */
  function Explode(sep: char, s: string): (parts: seq<string>)
    ensures |parts| >= 1
    ensures forall k :: 0 <= k < |parts| ==> sep !in parts[k]
  {
    if |s| == 0 then [""]
    else
      var rest := Explode(sep, s[1..]);
      if s[0] == sep then [""] + rest
      else [[s[0]] + rest[0]] + rest[1..]
  }

  /** The pieces glued together with `sep` between neighbours. */
  function Join(sep: char, parts: seq<string>): string
    requires |parts| >= 1
  {
    if |parts| == 1 then parts[0] else parts[0] + [sep] + Join(sep, parts[1..])
  }

  /** Joining the pieces of a text gives the text back. */
  lemma {:induction false} JoinExplode(sep: char, s: string)
    ensures Join(sep, Explode(sep, s)) == s
  {
    if |s| > 0 {
      var rest := Explode(sep, s[1..]);
      JoinExplode(sep, s[1..]);
      if s[0] == sep {
        assert ([""] + rest)[1..] == rest;
      } else {
        var parts := [[s[0]] + rest[0]] + rest[1..];
        if |rest| == 1 {
          assert parts == [[s[0]] + rest[0]];
        } else {
          assert parts[1..] == rest[1..];
          assert Join(sep, rest) == rest[0] + [sep] + Join(sep, rest[1..]);
        }
      }
    }
  }

  /** A separator-free prefix followed by the separator becomes the first
      piece. */
  lemma {:induction false} ExplodeSeparated(sep: char, a: string, b: string)
    requires sep !in a
    ensures Explode(sep, a + [sep] + b) == [a] + Explode(sep, b)
  {
    if |a| == 0 {
      assert a + [sep] + b == [sep] + b;
      assert ([sep] + b)[1..] == b;
    } else {
      assert (a + [sep] + b)[1..] == a[1..] + [sep] + b;
      ExplodeSeparated(sep, a[1..], b);
      assert [a[0]] + a[1..] == a;
    }
  }

  /** A separator-free text is a single piece. */
  lemma {:induction false} ExplodeWhole(sep: char, a: string)
    requires sep !in a
    ensures Explode(sep, a) == [a]
  {
    if |a| > 0 {
      ExplodeWhole(sep, a[1..]);
      assert [a[0]] + a[1..] == a;
    }
  }

  /** Splitting joined separator-free pieces gives the pieces back. */
  lemma {:induction false} ExplodeJoin(sep: char, parts: seq<string>)
    requires |parts| >= 1
    requires forall k :: 0 <= k < |parts| ==> sep !in parts[k]
    ensures Explode(sep, Join(sep, parts)) == parts
  {
    if |parts| == 1 {
      ExplodeWhole(sep, parts[0]);
    } else {
      ExplodeJoin(sep, parts[1..]);
      ExplodeSeparated(sep, parts[0], Join(sep, parts[1..]));
      assert [parts[0]] + parts[1..] == parts;
    }
  }

  /** Prepending one element before or after an append is the same. */
  lemma Regroup<T>(x: T, a: seq<T>, b: seq<T>)
    ensures [x] + (a + b) == ([x] + a) + b
  {
  }

  /** Separator-free pieces joined and followed by the separator come
      back as those pieces, ahead of whatever follows. */
  lemma {:induction false} ExplodeJoinThen(sep: char, parts: seq<string>, rest: string)
    requires |parts| >= 1
    requires forall k :: 0 <= k < |parts| ==> sep !in parts[k]
    ensures Explode(sep, Join(sep, parts) + [sep] + rest) == parts + Explode(sep, rest)
  {
    if |parts| == 1 {
      ExplodeSeparated(sep, parts[0], rest);
    } else {
      var tail := Join(sep, parts[1..]);
      var after := tail + [sep] + rest;
      assert Join(sep, parts) == parts[0] + [sep] + tail;
      assert Join(sep, parts) + [sep] + rest == parts[0] + [sep] + after;
      assert sep !in parts[0];
      ExplodeSeparated(sep, parts[0], after);
      ExplodeJoinThen(sep, parts[1..], rest);
      assert parts == [parts[0]] + parts[1..];
      Regroup(parts[0], parts[1..], Explode(sep, rest));
    }
  }

  /** `s` with every occurrence of `c` removed (str_replace of one
      character by the empty string). */
  function RemoveChar(c: char, s: string): (r: string)
    ensures |r| <= |s|
    ensures forall x :: x in r <==> x in s && x != c
  {
    if |s| == 0 then [] else (if s[0] == c then [] else [s[0]]) + RemoveChar(c, s[1..])
  }

  /** Removing a character works piece by piece. */
  lemma {:induction false} RemoveCharAppend(c: char, a: string, b: string)
    ensures RemoveChar(c, a + b) == RemoveChar(c, a) + RemoveChar(c, b)
  {
    if |a| > 0 {
      assert (a + b)[1..] == a[1..] + b;
      RemoveCharAppend(c, a[1..], b);
    } else {
      assert a + b == b;
    }
  }

  /** A text without the character is left as it is. */
  lemma {:induction false} RemoveCharAbsent(c: char, s: string)
    requires c !in s
    ensures RemoveChar(c, s) == s
  {
    if |s| > 0 {
      RemoveCharAbsent(c, s[1..]);
      assert [s[0]] + s[1..] == s;
    }
  }
}
