/** The organiser badge of the home page: `initials(name)` takes the first letter of each
    of the first two words of a name, upper-cased. */
module Initials {
  import opened Seqs
  import opened Text

  /** `s.split(" ")`: the pieces between single space characters, empty ones included. */
  function SplitOnSpace(s: string): (pieces: seq<string>)
    ensures |pieces| >= 1
    ensures forall i :: 0 <= i < |pieces| ==> ' ' !in pieces[i]
  {
    if |s| == 0 then [[]]
    else
      var rest := SplitOnSpace(s[1..]);
      if s[0] == ' ' then [[]] + rest
      else [[s[0]] + rest[0]] + rest[1..]
  }

  /** `pieces.join(" ")`. */
  function JoinWithSpace(pieces: seq<string>): string
    requires |pieces| >= 1
  {
    if |pieces| == 1 then pieces[0] else pieces[0] + [' '] + JoinWithSpace(pieces[1..])
  }

  /** Splitting loses nothing: joining the pieces with single spaces gives the name back. */
  lemma {:induction false} SplitJoin(s: string)
    ensures JoinWithSpace(SplitOnSpace(s)) == s
    decreases |s|
  {
    if |s| > 0 {
      var rest := SplitOnSpace(s[1..]);
      SplitJoin(s[1..]);
      if s[0] != ' ' {
        if |rest| > 1 {
          assert rest == [rest[0]] + rest[1..];
        }
        assert ([[s[0]] + rest[0]] + rest[1..])[1..] == rest[1..];
      } else {
        assert ([[]] + rest)[1..] == rest;
      }
    }
  }

  /** Splitting around one space splits each side on its own. */
  lemma {:induction false} SplitConcat(a: string, b: string)
    ensures SplitOnSpace(a + [' '] + b) == SplitOnSpace(a) + SplitOnSpace(b)
    decreases |a|
  {
    if |a| == 0 {
      assert a + [' '] + b == [' '] + b;
      assert ([' '] + b)[1..] == b;
    } else {
      var tail := a[1..] + [' '] + b;
      assert (a + [' '] + b)[1..] == tail;
      assert (a + [' '] + b)[0] == a[0];
      SplitConcat(a[1..], b);
    }
  }

  /** `filter(Boolean)` on strings: the empty string is falsy. */
  predicate NonEmpty(w: string) { w != [] }

  /** The words of a name: the non-empty pieces between spaces. */
  function Words(s: string): (ws: seq<string>)
    ensures forall i :: 0 <= i < |ws| ==> ws[i] != [] && ' ' !in ws[i]
  {
    var pieces := SplitOnSpace(s);
    FilterMembers(pieces, NonEmpty);
    var ws := Filter(pieces, NonEmpty);
    assert forall i :: 0 <= i < |ws| ==> ws[i] in pieces;
    ws
  }

  /** The words around a space are the words of each side, in order. */
  lemma WordsConcat(a: string, b: string)
    ensures Words(a + [' '] + b) == Words(a) + Words(b)
  {
    SplitConcat(a, b);
    FilterConcat(SplitOnSpace(a), SplitOnSpace(b), NonEmpty);
  }

  /** A name without a space character is a single word, or none when it is empty. */
  lemma WordsWithoutSpace(s: string)
    requires ' ' !in s
    ensures Words(s) == if s == [] then [] else [s]
  {
    assert SplitOnSpace(s) == [s] by {
      SplitJoin(s);
    }
    assert SplitOnSpace(s) == [] + [s];
  }

  /** A name made only of spaces, or empty, has no words; any other name has one. */
  lemma {:induction false} NoWordsIffBlank(s: string)
    ensures Words(s) == [] <==> forall i :: 0 <= i < |s| ==> s[i] == ' '
    decreases |s|
  {
    if |s| > 0 {
      NoWordsIffBlank(s[1..]);
      var rest := SplitOnSpace(s[1..]);
      if s[0] == ' ' {
        assert SplitOnSpace(s) == [[]] + rest;
        FilterConcat([[]], rest, NonEmpty);
        assert Filter([[]], NonEmpty) == [];
      } else {
        var first := [s[0]] + rest[0];
        assert SplitOnSpace(s) == [first] + rest[1..];
        FilterConcat([first], rest[1..], NonEmpty);
        assert Filter([first], NonEmpty) == [first];
      }
      assert (forall i :: 0 <= i < |s| ==> s[i] == ' ')
        <==> s[0] == ' ' && (forall i :: 0 <= i < |s[1..]| ==> s[1..][i] == ' ') by {
        if s[0] == ' ' && (forall i :: 0 <= i < |s[1..]| ==> s[1..][i] == ' ') {
          forall i | 0 <= i < |s| ensures s[i] == ' ' {
            if i > 0 { assert s[i] == s[1..][i - 1]; }
          }
        }
      }
    }
  }

  /** `n[0]?.toUpperCase()`: the upper-cased first character; an empty word, which the
      filter has removed, would contribute nothing to the joined string. */
  function FirstUpper(w: string): string {
    if w == [] then [] else [ToUpper(w[0])]
  }

  /** `join("")`. */
  function Concat(parts: seq<string>): string {
    if |parts| == 0 then [] else parts[0] + Concat(parts[1..])
  }

  lemma ConcatShort(parts: seq<string>)
    ensures |parts| == 1 ==> Concat(parts) == parts[0]
    ensures |parts| == 2 ==> Concat(parts) == parts[0] + parts[1]
  {
    if |parts| == 2 {
      assert Concat(parts[1..]) == parts[1] + Concat(parts[1..][1..]);
    }
  }

  /** `initials(name)`. Only the space character separates words; `toUpperCase` is
      modelled on the ASCII letters. */
  function Initials(name: string): (r: string)
    ensures |r| <= 2
    ensures |r| == if |Words(name)| < 2 then |Words(name)| else 2
    ensures forall k :: 0 <= k < |r| ==> r[k] == ToUpper(Words(name)[k][0])
    ensures r == [] <==> forall i :: 0 <= i < |name| ==> name[i] == ' '
  {
    var words := Words(name);
    var firstTwo := if |words| < 2 then words else words[..2];
    NoWordsIffBlank(name);
    var m := Map(firstTwo, FirstUpper);
    ConcatShort(m);
    assert |m| >= 1 ==> m[0] == [ToUpper(words[0][0])];
    assert |m| == 2 ==> m[1] == [ToUpper(words[1][0])];
    Concat(m)
  }

  /** Words after the second do not matter. */
  lemma LaterWordsIgnored(a: string, b: string)
    requires |Words(a)| >= 2
    ensures Initials(a + [' '] + b) == Initials(a)
  {
    WordsConcat(a, b);
    var w := Words(a + [' '] + b);
    assert w[0] == Words(a)[0] && w[1] == Words(a)[1];
  }

  /** A run of spaces separates words like a single space. */
  lemma SpaceRunsCollapse(a: string, b: string)
    ensures Words(a + [' ', ' '] + b) == Words(a + [' '] + b)
  {
    var spaceB := [' '] + b;
    assert a + [' ', ' '] + b == a + [' '] + spaceB;
    WordsConcat(a, spaceB);
    assert spaceB == [] + [' '] + b;
    WordsConcat([], b);
    WordsWithoutSpace([]);
    assert Words(spaceB) == Words(b);
    WordsConcat(a, b);
  }

  /** A tab does not separate words: "a\tb" is one word. */
  lemma TabDoesNotSeparate()
    ensures Words("a\tb") == ["a\tb"]
    ensures Initials("a\tb") == "A"
  {
    assert ' ' !in "a\tb" by {
      assert forall i :: 0 <= i < 3 ==> "a\tb"[i] != ' ';
    }
    WordsWithoutSpace("a\tb");
  }
}
