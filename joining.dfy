/**
 * Delimited text: joining pieces of text with one delimiter character between
 * each adjacent pair, and the splitter that takes such text apart again.
 * The splitter is not part of the reconstruction itself; it is the inverse
 * against which the reconstruction is checked (when no piece contains a
 * delimiter, the joined text determines the pieces and the delimiters).
 */
module Joining {

  /** No character of `s` is one of `delims`. */
  predicate FreeOf(s: seq<char>, delims: set<char>)
  {
    forall i :: 0 <= i < |s| ==> s[i] !in delims
  }

  /** Text made of two delimiter-free parts is delimiter-free. */
  lemma FreeOfAppend(a: seq<char>, b: seq<char>, delims: set<char>)
    requires FreeOf(a, delims) && FreeOf(b, delims)
    ensures FreeOf(a + b, delims)
  {
    forall i | 0 <= i < |a + b| ensures (a + b)[i] !in delims {
      if i >= |a| {
        assert (a + b)[i] == b[i - |a|];
      }
    }
  }

  /** pieces[0] + [seps[0]] + pieces[1] + ... + [seps[k-1]] + pieces[k]. */
  function Interleave(pieces: seq<seq<char>>, seps: seq<char>): seq<char>
    requires |pieces| == |seps| + 1
    decreases |seps|
  {
    if |seps| == 0 then pieces[0]
    else Interleave(pieces[..|pieces| - 1], seps[..|seps| - 1]) + [seps[|seps| - 1]] + pieces[|pieces| - 1]
  }

  /** `n` copies of the character `c`. */
  function Repeat(c: char, n: nat): (r: seq<char>)
    ensures |r| == n
    ensures forall i :: 0 <= i < n ==> r[i] == c
  {
    if n == 0 then [] else Repeat(c, n - 1) + [c]
  }

  /**
   * The items' texts in order, with the separator sep(prev, next) written
   * between each adjacent pair: none before the first, none after the last,
   * nothing at all for no items.
   */
  function Delimited<T>(items: seq<T>, text: T -> string, sep: (T, T) -> char): string
    decreases |items|
  {
    if |items| == 0 then []
    else if |items| == 1 then text(items[0])
    else
      Delimited(items[..|items| - 1], text, sep)
      + [sep(items[|items| - 2], items[|items| - 1])]
      + text(items[|items| - 1])
  }

  /** Each item's text, in order. */
  function Texts<T>(items: seq<T>, text: T -> string): (r: seq<string>)
    ensures |r| == |items|
    ensures forall i :: 0 <= i < |items| ==> r[i] == text(items[i])
  {
    seq(|items|, i requires 0 <= i < |items| => text(items[i]))
  }

  /** The separator chosen for each of the gaps between adjacent items. */
  function Gaps<T>(items: seq<T>, sep: (T, T) -> char): (r: seq<char>)
    requires |items| >= 1
    ensures |r| == |items| - 1
    ensures forall i :: 0 <= i < |items| - 1 ==> r[i] == sep(items[i], items[i + 1])
  {
    seq(|items| - 1, i requires 0 <= i < |items| - 1 => sep(items[i], items[i + 1]))
  }

  /** The items' texts in order, nothing between them. */
  function ConcatMap<T>(items: seq<T>, text: T -> string): string
    decreases |items|
  {
    if |items| == 0 then [] else ConcatMap(items[..|items| - 1], text) + text(items[|items| - 1])
  }

  /**
   * Cuts `s` at every character in `delims`: the maximal delimiter-free runs
   * and, in order, the delimiters found between them.
   */
  function Split(s: seq<char>, delims: set<char>): (r: (seq<seq<char>>, seq<char>))
    ensures |r.0| == |r.1| + 1
    ensures forall i :: 0 <= i < |r.1| ==> r.1[i] in delims
    decreases |s|
  {
    if |s| == 0 then ([[]], [])
    else
      var prefix := Split(s[..|s| - 1], delims);
      var c := s[|s| - 1];
      if c in delims then (prefix.0 + [[]], prefix.1 + [c])
      else (prefix.0[..|prefix.0| - 1] + [prefix.0[|prefix.0| - 1] + [c]], prefix.1)
  }

  /** Appending delimiter-free text only extends the last piece. */
  lemma {:induction false} SplitAppendFree(x: seq<char>, y: seq<char>, delims: set<char>)
    requires FreeOf(y, delims)
    ensures Split(x + y, delims).1 == Split(x, delims).1
    ensures Split(x + y, delims).0
         == Split(x, delims).0[..|Split(x, delims).0| - 1] + [Split(x, delims).0[|Split(x, delims).0| - 1] + y]
    decreases |y|
  {
    var p := Split(x, delims).0;
    if |y| == 0 {
      assert x + y == x;
      assert p[|p| - 1] + y == p[|p| - 1];
      assert p[..|p| - 1] + [p[|p| - 1]] == p;
    } else {
      var y' := y[..|y| - 1];
      var c := y[|y| - 1];
      SplitAppendFree(x, y', delims);
      assert (x + y)[..|x + y| - 1] == x + y';
      assert (x + y)[|x + y| - 1] == c && c !in delims;
      var q := p[..|p| - 1] + [p[|p| - 1] + y'];
      assert q[..|q| - 1] == p[..|p| - 1];
      assert q[|q| - 1] + [c] == p[|p| - 1] + y;
    }
  }

  /** Appending one delimiter closes the last piece and opens an empty one. */
  lemma SplitAppendDelim(x: seq<char>, c: char, delims: set<char>)
    requires c in delims
    ensures Split(x + [c], delims) == (Split(x, delims).0 + [[]], Split(x, delims).1 + [c])
  {
    assert (x + [c])[..|x + [c]| - 1] == x;
  }

  /** Round trip: splitting interleaved delimiter-free pieces gives back the pieces and the delimiters. */
  lemma {:induction false} SplitInterleave(pieces: seq<seq<char>>, seps: seq<char>, delims: set<char>)
    requires |pieces| == |seps| + 1
    requires forall i :: 0 <= i < |pieces| ==> FreeOf(pieces[i], delims)
    requires forall i :: 0 <= i < |seps| ==> seps[i] in delims
    ensures Split(Interleave(pieces, seps), delims) == (pieces, seps)
    decreases |seps|
  {
    if |seps| == 0 {
      SplitAppendFree([], pieces[0], delims);
      assert Split([], delims) == ([[]], []);
      assert [] + pieces[0] == pieces[0];
      assert [[]][..0] + [[] + pieces[0]] == [pieces[0]];
      assert [pieces[0]] == pieces;
    } else {
      var ps, ss := pieces[..|pieces| - 1], seps[..|seps| - 1];
      var last, c := pieces[|pieces| - 1], seps[|seps| - 1];
      SplitInterleave(ps, ss, delims);
      var x := Interleave(ps, ss);
      SplitAppendDelim(x, c, delims);
      SplitAppendFree(x + [c], last, delims);
      assert (ps + [[]])[..|ps|] == ps;
      assert (ps + [[]])[|ps|] + last == last;
      assert Interleave(pieces, seps) == (x + [c]) + last;
      assert ps + [last] == pieces;
      assert ss + [c] == seps;
    }
  }

  /** Delimited text is the items' texts interleaved with the separators of the gaps. */
  lemma {:induction false} DelimitedAsInterleave<T>(items: seq<T>, text: T -> string, sep: (T, T) -> char)
    requires |items| >= 1
    ensures Delimited(items, text, sep) == Interleave(Texts(items, text), Gaps(items, sep))
    decreases |items|
  {
    if |items| > 1 {
      var init := items[..|items| - 1];
      DelimitedAsInterleave(init, text, sep);
      assert Texts(items, text)[..|items| - 1] == Texts(init, text);
      assert Gaps(items, sep)[..|items| - 2] == Gaps(init, sep);
    }
  }

  /**
   * Between items i - 1 and i of delimited text stands exactly one
   * separator, sep(items[i - 1], items[i]); the text before it is that of
   * the first i items and the text after it that of the rest.
   */
  lemma {:induction false} DelimitedBoundary<T>(items: seq<T>, i: nat, text: T -> string, sep: (T, T) -> char)
    requires 0 < i < |items|
    ensures Delimited(items, text, sep)
         == Delimited(items[..i], text, sep) + [sep(items[i - 1], items[i])] + Delimited(items[i..], text, sep)
    decreases |items|
  {
    var n := |items|;
    var init, last := items[..n - 1], items[n - 1];
    var gap := [sep(items[n - 2], last)];
    assert Delimited(items, text, sep) == Delimited(init, text, sep) + gap + text(last);
    if i == n - 1 {
      assert items[i..] == [last];
      assert items[..i] == init;
    } else {
      DelimitedBoundary(init, i, text, sep);
      assert init[..i] == items[..i];
      var rest := items[i..];
      assert rest[..|rest| - 1] == init[i..];
      assert rest[|rest| - 2] == items[n - 2] && rest[|rest| - 1] == last;
      assert Delimited(rest, text, sep) == Delimited(init[i..], text, sep) + gap + text(last);
    }
  }

  /** Adding an item to delimited text: its separator comes before it unless it is the first. */
  lemma DelimitedSnoc<T>(items: seq<T>, item: T, text: T -> string, sep: (T, T) -> char)
    ensures Delimited(items + [item], text, sep)
         == if |items| == 0 then text(item)
            else Delimited(items, text, sep) + [sep(items[|items| - 1], item)] + text(item)
  {
    assert (items + [item])[..|items|] == items;
  }

  /**
   * Writing one more item, preceded by its separator unless it is the first,
   * onto text that ends in the delimited text of the items before it.
   */
  lemma DelimitedStep<T>(start: string, before: string, separated: string, after: string,
                         items: seq<T>, i: nat, text: T -> string, sep: (T, T) -> char)
    requires i < |items|
    requires before == start + Delimited(items[..i], text, sep)
    requires separated == before + (if i > 0 then [sep(items[i - 1], items[i])] else [])
    requires after == separated + text(items[i])
    ensures after == start + Delimited(items[..i + 1], text, sep)
  {
    assert items[..i + 1] == items[..i] + [items[i]];
    DelimitedSnoc(items[..i], items[i], text, sep);
  }

  lemma {:induction false} ConcatMapAppend<T>(a: seq<T>, b: seq<T>, text: T -> string)
    ensures ConcatMap(a + b, text) == ConcatMap(a, text) + ConcatMap(b, text)
    decreases |b|
  {
    if |b| == 0 {
      assert a + b == a;
    } else {
      ConcatMapAppend(a, b[..|b| - 1], text);
      assert (a + b)[..|a + b| - 1] == a + b[..|b| - 1];
    }
  }

  /** Gluing a first piece and separator in front of interleaved text. */
  lemma {:induction false} InterleaveCons(p: seq<char>, c: char, pieces: seq<seq<char>>, seps: seq<char>)
    requires |pieces| == |seps| + 1
    ensures Interleave([p] + pieces, [c] + seps) == p + [c] + Interleave(pieces, seps)
    decreases |seps|
  {
    var ps, ss := [p] + pieces, [c] + seps;
    if |seps| == 0 {
      assert ps[..1] == [p];
    } else {
      InterleaveCons(p, c, pieces[..|pieces| - 1], seps[..|seps| - 1]);
      assert ps[..|ps| - 1] == [p] + pieces[..|pieces| - 1];
      assert ss[..|ss| - 1] == [c] + seps[..|seps| - 1];
    }
  }

  /** Interleaved text free of the delimiters when its pieces and separators are. */
  lemma {:induction false} InterleaveFreeOf(pieces: seq<seq<char>>, seps: seq<char>, delims: set<char>)
    requires |pieces| == |seps| + 1
    requires forall i :: 0 <= i < |pieces| ==> FreeOf(pieces[i], delims)
    requires forall i :: 0 <= i < |seps| ==> seps[i] !in delims
    ensures FreeOf(Interleave(pieces, seps), delims)
    decreases |seps|
  {
    if |seps| > 0 {
      InterleaveFreeOf(pieces[..|pieces| - 1], seps[..|seps| - 1], delims);
      var x := Interleave(pieces[..|pieces| - 1], seps[..|seps| - 1]);
      var last := pieces[|pieces| - 1];
      assert FreeOf(last, delims);
      var r := x + [seps[|seps| - 1]] + last;
      forall i | 0 <= i < |r| ensures r[i] !in delims {
        if i >= |x| + 1 {
          assert r[i] == last[i - |x| - 1];
        }
      }
    }
  }
}
