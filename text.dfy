/**
 * The JavaScript string operations the save-as-snippet command relies on:
 * `s.split('\n')`, its inverse `lines.join('\n')`, and the global
 * replacement of one character by the empty string (`s.replace(/c/g, '')`).
 * A string is a sequence of characters; the characters involved here
 * (line feed, U+FFFD, U+200B) are single UTF-16 code units, so a sequence of
 * Unicode scalar values splits and filters exactly as the JavaScript string does.
 */
module Text {

  const LineFeed: char := '\n'

  /** Number of occurrences of `c` in `s`. */
  function Count(s: string, c: char): (n: nat)
    ensures n <= |s|
    ensures n == 0 <==> c !in s
  {
    if s == [] then 0 else (if s[0] == c then 1 else 0) + Count(s[1..], c)
  }

  /**
   * `s.split('\n')`: the maximal line-feed-free pieces of `s`, in order.
   * As in JavaScript, the empty string splits into one empty piece and a
   * trailing line feed yields a trailing empty piece.
   */
  function Split(s: string): (pieces: seq<string>)
    ensures |pieces| >= 1
    ensures forall k :: 0 <= k < |pieces| ==> LineFeed !in pieces[k]
    decreases |s|
  {
    if s == [] then [[]]
    else
      var rest := Split(s[1..]);
      if s[0] == LineFeed then [[]] + rest
      else [[s[0]] + rest[0]] + rest[1..]
  }

  /** `lines.join('\n')`. */
  function Join(lines: seq<string>): string
  {
    if |lines| == 0 then []
    else if |lines| == 1 then lines[0]
    else lines[0] + [LineFeed] + Join(lines[1..])
  }

  /** `s.replace(/c/g, '')`: `s` with every occurrence of `c` taken out. */
  function RemoveAll(s: string, c: char): (r: string)
    ensures c !in r
    ensures |r| == |s| - Count(s, c)
  {
    if s == [] then []
    else (if s[0] == c then [] else [s[0]]) + RemoveAll(s[1..], c)
  }

  /** Joining the pieces of a split gives back the string: splitting drops no character. */
  lemma {:induction false} JoinSplit(s: string)
    ensures Join(Split(s)) == s
    decreases |s|
  {
    if s != [] {
      var rest := Split(s[1..]);
      JoinSplit(s[1..]);
      if s[0] == LineFeed {
        assert Split(s) == [[]] + rest;
        assert ([[]] + rest)[1..] == rest;
      } else {
        var first := [s[0]] + rest[0];
        assert Split(s) == [first] + rest[1..];
        if |rest| == 1 {
          assert Join(rest) == rest[0];
        } else {
          assert ([first] + rest[1..])[1..] == rest[1..];
          assert Join(rest) == rest[0] + [LineFeed] + Join(rest[1..]);
        }
        assert s == [s[0]] + s[1..];
      }
    }
  }

  /** A line-feed-free prefix glues onto the first piece of what follows it. */
  lemma {:induction false} SplitPrefix(p: string, t: string)
    requires LineFeed !in p
    ensures Split(p + t) == [p + Split(t)[0]] + Split(t)[1..]
    decreases |p|
  {
    var st := Split(t);
    if p == [] {
      assert p + t == t && p + st[0] == st[0];
      assert st == [st[0]] + st[1..];
    } else {
      assert (p + t)[0] == p[0] && (p + t)[1..] == p[1..] + t;
      SplitPrefix(p[1..], t);
      var inner := Split(p[1..] + t);
      assert inner == [p[1..] + st[0]] + st[1..];
      assert inner[0] == p[1..] + st[0] && inner[1..] == st[1..];
      assert Split(p + t) == [[p[0]] + inner[0]] + inner[1..];
      assert [p[0]] + (p[1..] + st[0]) == p + st[0];
    }
  }

  /** Splitting a join of line-feed-free lines gives back the lines. */
  lemma {:induction false} SplitJoin(lines: seq<string>)
    requires |lines| >= 1
    requires forall k :: 0 <= k < |lines| ==> LineFeed !in lines[k]
    ensures Split(Join(lines)) == lines
    decreases |lines|
  {
    if |lines| == 1 {
      SplitPrefix(lines[0], []);
      assert lines[0] + [] == lines[0];
    } else {
      var tail := Join(lines[1..]);
      SplitJoin(lines[1..]);
      assert lines[0] + [LineFeed] + tail == lines[0] + ([LineFeed] + tail);
      SplitPrefix(lines[0], [LineFeed] + tail);
      assert ([LineFeed] + tail)[0] == LineFeed && ([LineFeed] + tail)[1..] == tail;
      var rest := Split([LineFeed] + tail);
      assert rest == [[]] + lines[1..];
      assert rest[0] == [] && rest[1..] == lines[1..];
      assert lines[0] + rest[0] == lines[0];
      assert Join(lines) == lines[0] + ([LineFeed] + tail);
      assert lines == [lines[0]] + lines[1..];
    }
  }

  /** A split has one more piece than the string has line feeds. */
  lemma {:induction false} SplitLength(s: string)
    ensures |Split(s)| == Count(s, LineFeed) + 1
    decreases |s|
  {
    if s != [] {
      SplitLength(s[1..]);
    }
  }

  /** Every character of a piece is a character of the joined string. */
  lemma {:induction false} JoinContains(lines: seq<string>, k: nat, c: char)
    requires k < |lines| && c in lines[k]
    ensures c in Join(lines)
    decreases |lines|
  {
    if |lines| > 1 {
      if k == 0 {
        assert Join(lines) == lines[0] + ([LineFeed] + Join(lines[1..]));
      } else {
        JoinContains(lines[1..], k - 1, c);
        assert Join(lines) == (lines[0] + [LineFeed]) + Join(lines[1..]);
      }
    }
  }

  /** A character absent from a string is absent from every piece of its split. */
  lemma SplitPiecesAvoid(s: string, c: char)
    requires c !in s
    ensures forall k :: 0 <= k < |Split(s)| ==> c !in Split(s)[k]
  {
    forall k | 0 <= k < |Split(s)| ensures c !in Split(s)[k] {
      if c in Split(s)[k] {
        JoinContains(Split(s), k, c);
        JoinSplit(s);
      }
    }
  }

  /** Removing a character that does not occur changes nothing. */
  lemma {:induction false} RemoveAllAbsent(s: string, c: char)
    requires c !in s
    ensures RemoveAll(s, c) == s
    decreases |s|
  {
    if s != [] {
      RemoveAllAbsent(s[1..], c);
      assert s == [s[0]] + s[1..];
    }
  }

  /** Removal works piecewise over a concatenation. */
  lemma {:induction false} RemoveAllAppend(s: string, t: string, c: char)
    ensures RemoveAll(s + t, c) == RemoveAll(s, c) + RemoveAll(t, c)
    decreases |s|
  {
    if s == [] {
      assert s + t == t;
    } else {
      assert (s + t)[0] == s[0] && (s + t)[1..] == s[1..] + t;
      RemoveAllAppend(s[1..], t, c);
    }
  }
}
