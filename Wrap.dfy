/** The character-count caption wrapper: the caption is split at line
    breaks, each paragraph is cut greedily into pieces of at most `limit`
    characters, and the pieces are trimmed with empty ones dropped. */
module Wrap {

  // ---------------------------------------------------------------------
  // Paragraphs: str.split('\n') and its inverse '\n'.join

  /** The paragraphs of s, as s.split('\n') gives them: a text without a
      line break is one paragraph, and the empty text is one empty one. */
  function Split(s: string): (ps: seq<string>)
    ensures |ps| >= 1
    ensures forall i :: 0 <= i < |ps| ==> '\n' !in ps[i]
  {
    if s == [] then [[]]
    else
      var rest := Split(s[1..]);
      if s[0] == '\n' then [[]] + rest
      else [[s[0]] + rest[0]] + rest[1..]
  }

  /** '\n'.join(ps). */
  function Join(ps: seq<string>): string
    requires |ps| >= 1
  {
    if |ps| == 1 then ps[0] else ps[0] + "\n" + Join(ps[1..])
  }

  lemma {:induction false} JoinSplit(s: string)
    ensures Join(Split(s)) == s
  {
    if s != [] {
      JoinSplit(s[1..]);
      var rest := Split(s[1..]);
      if s[0] != '\n' {
        var ps := Split(s);
        assert ps[1..] == rest[1..];
        if |rest| == 1 {
          assert Join(ps) == [s[0]] + rest[0];
        } else {
          assert Join(rest) == rest[0] + "\n" + Join(rest[1..]);
          assert Join(ps) == ([s[0]] + rest[0]) + "\n" + Join(rest[1..]);
        }
      }
    }
  }

  lemma {:induction false} SplitJoin(ps: seq<string>)
    requires |ps| >= 1
    requires forall i :: 0 <= i < |ps| ==> '\n' !in ps[i]
    ensures Split(Join(ps)) == ps
  {
    if |ps| == 1 {
      NoBreakSplit(ps[0]);
    } else {
      SplitJoin(ps[1..]);
      SplitPrefix(ps[0], Join(ps[1..]));
      assert [ps[0]] + ps[1..] == ps;
    }
  }

  /** A text without a line break is a single paragraph. */
  lemma {:induction false} NoBreakSplit(p: string)
    requires '\n' !in p
    ensures Split(p) == [p]
  {
    if p != [] {
      NoBreakSplit(p[1..]);
      assert [p[0]] + p[1..] == p;
    }
  }

  /** A break-free head followed by a line break starts a new paragraph. */
  lemma {:induction false} SplitPrefix(p: string, t: string)
    requires '\n' !in p
    ensures Split(p + "\n" + t) == [p] + Split(t)
  {
    if p == [] {
      assert p + "\n" + t == "\n" + t;
      assert ("\n" + t)[1..] == t;
    } else {
      var s := p + "\n" + t;
      assert s[0] == p[0] && s[1..] == p[1..] + "\n" + t;
      SplitPrefix(p[1..], t);
      assert [p[0]] + p[1..] == p;
    }
  }

  /** Paragraphs never merge: the paragraphs of a + "\n" + b are those of a
      followed by those of b. */
  lemma {:induction false} SplitAtBreak(a: string, b: string)
    ensures Split(a + "\n" + b) == Split(a) + Split(b)
  {
    var pa, pb := Split(a), Split(b);
    JoinSplit(a);
    JoinSplit(b);
    JoinAppend(pa, pb);
    assert a + "\n" + b == Join(pa + pb);
    SplitJoin(pa + pb);
  }

  lemma {:induction false} JoinAppend(xs: seq<string>, ys: seq<string>)
    requires |xs| >= 1 && |ys| >= 1
    ensures Join(xs + ys) == Join(xs) + "\n" + Join(ys)
  {
    if |xs| == 1 {
      assert (xs + ys)[1..] == ys;
    } else {
      assert (xs + ys)[1..] == xs[1..] + ys;
      JoinAppend(xs[1..], ys);
    }
  }

  // ---------------------------------------------------------------------
  // Greedy chunking of one paragraph

  /** The concatenation of a list of pieces. */
  function Flatten(xs: seq<string>): string
  {
    if xs == [] then [] else xs[0] + Flatten(xs[1..])
  }

  lemma {:induction false} FlattenAppend(xs: seq<string>, ys: seq<string>)
    ensures Flatten(xs + ys) == Flatten(xs) + Flatten(ys)
  {
    if xs != [] {
      assert (xs + ys)[0] == xs[0] && (xs + ys)[1..] == xs[1..] + ys;
      FlattenAppend(xs[1..], ys);
      assert Flatten(xs + ys) == xs[0] + (Flatten(xs[1..]) + Flatten(ys));
    } else {
      assert xs + ys == ys;
    }
  }

  /** The pieces of p: consecutive runs of `limit` characters, the last
      one possibly shorter; the empty paragraph has none. */
  function Chunks(p: string, limit: nat): seq<string>
    requires 0 < limit
    decreases |p|
  {
    if p == [] then []
    else if |p| <= limit then [p]
    else [p[..limit]] + Chunks(p[limit..], limit)
  }

  /** Every piece but the last has exactly `limit` characters and the last
      has 1..limit. */
  ghost predicate Greedy(xs: seq<string>, limit: nat)
  {
    (forall i :: 0 <= i < |xs| - 1 ==> |xs[i]| == limit) &&
    (xs != [] ==> 0 < |xs[|xs| - 1]| <= limit)
  }

  /** The wrapped pieces of a paragraph lose no character. */
  lemma {:induction false} ChunksFlatten(p: string, limit: nat)
    requires 0 < limit
    ensures Flatten(Chunks(p, limit)) == p
    decreases |p|
  {
    if p != [] {
      if |p| <= limit {
        assert Flatten([p]) == p + Flatten([]);
      } else {
        ChunksFlatten(p[limit..], limit);
        assert p[..limit] + p[limit..] == p;
      }
    }
  }

  /** The pieces of a paragraph are greedy and have 1..limit characters; the
      empty paragraph yields no piece, and a paragraph without a line break
      yields pieces without one. */
  lemma {:induction false} ChunksBounds(p: string, limit: nat)
    requires 0 < limit
    ensures Greedy(Chunks(p, limit), limit)
    ensures forall i :: 0 <= i < |Chunks(p, limit)| ==> 0 < |Chunks(p, limit)[i]| <= limit
    ensures (Chunks(p, limit) == []) == (p == [])
    ensures '\n' !in p ==> forall i :: 0 <= i < |Chunks(p, limit)| ==> '\n' !in Chunks(p, limit)[i]
    decreases |p|
  {
    if |p| > limit {
      ChunksBounds(p[limit..], limit);
      var cs, rest := Chunks(p, limit), Chunks(p[limit..], limit);
      assert cs == [p[..limit]] + rest;
      forall i | 0 < i < |cs| ensures cs[i] == rest[i - 1] { }
      if '\n' !in p {
        assert '\n' !in p[..limit] by {
          assert forall k :: 0 <= k < limit ==> p[..limit][k] == p[k];
        }
        assert '\n' !in p[limit..] by {
          assert forall k :: 0 <= k < |p| - limit ==> p[limit..][k] == p[limit + k];
        }
      }
    }
  }

  /** Both halves together. */
  lemma ChunksSound(p: string, limit: nat)
    requires 0 < limit
    ensures Flatten(Chunks(p, limit)) == p
    ensures Greedy(Chunks(p, limit), limit)
    ensures forall i :: 0 <= i < |Chunks(p, limit)| ==> 0 < |Chunks(p, limit)[i]| <= limit
    ensures (Chunks(p, limit) == []) == (p == [])
    ensures '\n' !in p ==> forall i :: 0 <= i < |Chunks(p, limit)| ==> '\n' !in Chunks(p, limit)[i]
  {
    ChunksFlatten(p, limit);
    ChunksBounds(p, limit);
  }

  /** The greedy decomposition is unique: any greedy list of pieces whose
      concatenation is p is Chunks(p). */
  lemma {:induction false} ChunksUnique(p: string, xs: seq<string>, limit: nat)
    requires 0 < limit
    requires Greedy(xs, limit) && Flatten(xs) == p
    ensures xs == Chunks(p, limit)
    decreases |xs|
  {
    if xs != [] {
      if |xs| == 1 {
        assert Flatten(xs) == xs[0] + Flatten([]);
        assert Flatten(xs) == xs[0];
        assert xs == [p];
      } else {
        var rest := xs[1..];
        assert Greedy(rest, limit) by {
          forall i | 0 <= i < |rest| - 1 ensures |rest[i]| == limit { assert rest[i] == xs[i + 1]; }
        }
        assert |xs[0]| == limit;
        ChunksSound(Flatten(rest), limit);
        assert Flatten(rest) != [] by {
          FlattenLast(rest);
        }
        assert p == xs[0] + Flatten(rest);
        assert p[..limit] == xs[0] && p[limit..] == Flatten(rest);
        ChunksUnique(Flatten(rest), rest, limit);
      }
    }
  }

  /** A list whose last piece is non-empty flattens to a non-empty text. */
  lemma {:induction false} FlattenLast(xs: seq<string>)
    requires xs != [] && xs[|xs| - 1] != []
    ensures Flatten(xs) != []
  {
    if |xs| > 1 {
      FlattenLast(xs[1..]);
    }
  }

  /** The pieces of all paragraphs, paragraph by paragraph, in order. */
  function Wrapped(ps: seq<string>, limit: nat): seq<string>
    requires 0 < limit
  {
    if ps == [] then [] else Wrapped(ps[..|ps| - 1], limit) + Chunks(ps[|ps| - 1], limit)
  }

  lemma {:induction false} WrappedAppend(xs: seq<string>, ys: seq<string>, limit: nat)
    requires 0 < limit
    ensures Wrapped(xs + ys, limit) == Wrapped(xs, limit) + Wrapped(ys, limit)
    decreases |ys|
  {
    if ys == [] {
      assert xs + ys == xs;
    } else {
      var ys', last := ys[..|ys| - 1], ys[|ys| - 1];
      assert (xs + ys)[..|xs + ys| - 1] == xs + ys' && (xs + ys)[|xs + ys| - 1] == last;
      assert Wrapped(xs + ys, limit) == Wrapped(xs + ys', limit) + Chunks(last, limit);
      WrappedAppend(xs, ys', limit);
      assert Wrapped(ys, limit) == Wrapped(ys', limit) + Chunks(last, limit);
    }
  }

  /** Over all paragraphs no character is lost: the pieces concatenate to
      the paragraphs concatenated. */
  lemma {:induction false} WrappedFlatten(ps: seq<string>, limit: nat)
    requires 0 < limit
    ensures Flatten(Wrapped(ps, limit)) == Flatten(ps)
  {
    if ps != [] {
      var init, last := ps[..|ps| - 1], ps[|ps| - 1];
      WrappedFlatten(init, limit);
      ChunksFlatten(last, limit);
      assert Wrapped(ps, limit) == Wrapped(init, limit) + Chunks(last, limit);
      FlattenAppend(Wrapped(init, limit), Chunks(last, limit));
      assert ps == init + [last];
      FlattenAppend(init, [last]);
      assert Flatten([last]) == last + Flatten([]);
    }
  }

  /** Every piece of every paragraph has 1..limit characters and, as the
      paragraphs hold no line break, no piece does. */
  lemma {:induction false} WrappedBounds(ps: seq<string>, limit: nat)
    requires 0 < limit
    requires forall i :: 0 <= i < |ps| ==> '\n' !in ps[i]
    ensures forall i :: 0 <= i < |Wrapped(ps, limit)| ==>
              0 < |Wrapped(ps, limit)[i]| <= limit && '\n' !in Wrapped(ps, limit)[i]
  {
    if ps != [] {
      var init, last := ps[..|ps| - 1], ps[|ps| - 1];
      WrappedBounds(init, limit);
      ChunksBounds(last, limit);
      var w, wi, cs := Wrapped(ps, limit), Wrapped(init, limit), Chunks(last, limit);
      assert w == wi + cs;
      forall i | 0 <= i < |w| ensures 0 < |w[i]| <= limit && '\n' !in w[i] {
        if i < |wi| { assert w[i] == wi[i]; } else { assert w[i] == cs[i - |wi|]; }
      }
    }
  }

  /** The wrap loop: for each paragraph, characters are appended to the
      current line until it holds `limit` of them; the next character then
      flushes it and starts a new line; a non-empty remainder is flushed at
      the paragraph's end. */
  method WrapParagraphs(paragraphs: seq<string>, limit: nat) returns (finalLines: seq<string>)
    requires 0 < limit
    ensures finalLines == Wrapped(paragraphs, limit)
  {
    finalLines := [];
    for j := 0 to |paragraphs|
      invariant finalLines == Wrapped(paragraphs[..j], limit)
    {
      finalLines := WrapLine(finalLines, paragraphs[j], limit);
      assert paragraphs[..j + 1][..j] == paragraphs[..j];
    }
    assert paragraphs[..|paragraphs|] == paragraphs;
  }

  /** The inner loop over one paragraph: the current line grows by one
      character until it is `limit` long, then it is emitted and a new one
      starts; a non-empty rest is emitted at the end. */
  method WrapLine(finalLines: seq<string>, userLine: string, limit: nat) returns (out: seq<string>)
    requires 0 < limit
    ensures out == finalLines + Chunks(userLine, limit)
  {
    out := finalLines;
    ghost var pieces: seq<string> := [];
    var currentLine: string := [];
    for i := 0 to |userLine|
      invariant out == finalLines + pieces
      invariant forall k :: 0 <= k < |pieces| ==> |pieces[k]| == limit
      invariant Flatten(pieces) + currentLine == userLine[..i]
      invariant |currentLine| <= limit && (0 < i ==> currentLine != [])
    {
      var ch := userLine[i];
      assert userLine[..i + 1] == userLine[..i] + [ch];
      if |currentLine| < limit {
        assert Flatten(pieces) + (currentLine + [ch]) == (Flatten(pieces) + currentLine) + [ch];
        currentLine := currentLine + [ch];
      } else {
        assert out + [currentLine] == finalLines + (pieces + [currentLine]);
        out := out + [currentLine];
        FlattenSnoc(pieces, currentLine);
        pieces := pieces + [currentLine];
        currentLine := [ch];
      }
    }
    if currentLine != [] {
      out := out + [currentLine];
      FlattenSnoc(pieces, currentLine);
      pieces := pieces + [currentLine];
    }
    assert userLine[..|userLine|] == userLine;
    ChunksUnique(userLine, pieces, limit);
  }

  lemma FlattenSnoc(xs: seq<string>, x: string)
    ensures Flatten(xs + [x]) == Flatten(xs) + x
  {
    FlattenAppend(xs, [x]);
    assert Flatten([x]) == x + Flatten([]);
  }

  // ---------------------------------------------------------------------
  // Trimming and dropping empty lines

  /** The characters str.strip() removes, Python's whitespace: U+0009..U+000D,
      U+001C..U+0020, U+0085, U+00A0, U+1680, U+2000..U+200A, U+2028, U+2029,
      U+202F, U+205F and the ideographic space U+3000. */
  predicate IsSpace(c: char)
  {
    var n := c as int;
    (9 <= n <= 13) || (28 <= n <= 32) || n == 0x85 || n == 0xA0 || n == 0x1680 ||
    (0x2000 <= n <= 0x200A) || n == 0x2028 || n == 0x2029 || n == 0x202F || n == 0x205F || n == 0x3000
  }

  /** s.lstrip(). */
  function StripLeft(s: string): string
  {
    if s != [] && IsSpace(s[0]) then StripLeft(s[1..]) else s
  }

  /** s.rstrip(). */
  function StripRight(s: string): string
  {
    if s != [] && IsSpace(s[|s| - 1]) then StripRight(s[..|s| - 1]) else s
  }

  /** s.lstrip() is the suffix of s left after its leading whitespace. */
  lemma {:induction false} StripLeftSound(s: string)
    ensures var r := StripLeft(s);
      |r| <= |s| && r == s[|s| - |r|..] &&
      (forall i :: 0 <= i < |s| - |r| ==> IsSpace(s[i])) &&
      (r == [] || !IsSpace(r[0]))
  {
    if s != [] && IsSpace(s[0]) {
      StripLeftSound(s[1..]);
      var r := StripLeft(s);
      assert s[1..][|s| - 1 - |r|..] == s[|s| - |r|..];
      forall i | 0 <= i < |s| - |r| ensures IsSpace(s[i]) {
        if i > 0 { assert s[i] == s[1..][i - 1]; }
      }
    }
  }

  /** s.rstrip() is the prefix of s left before its trailing whitespace. */
  lemma {:induction false} StripRightSound(s: string)
    ensures var r := StripRight(s);
      |r| <= |s| && r == s[..|r|] &&
      (forall i :: |r| <= i < |s| ==> IsSpace(s[i])) &&
      (r == [] || !IsSpace(r[|r| - 1]))
  {
    if s != [] && IsSpace(s[|s| - 1]) {
      var t := s[..|s| - 1];
      StripRightSound(t);
      var r := StripRight(s);
      assert t[..|r|] == s[..|r|];
      forall i | |r| <= i < |s| ensures IsSpace(s[i]) {
        if i < |s| - 1 { assert s[i] == t[i]; }
      }
    }
  }

  /** The number of leading whitespace characters of s. */
  function Lead(s: string): nat
  {
    StripLeftSound(s);
    |s| - |StripLeft(s)|
  }

  /** s.strip(). */
  function Strip(s: string): string
  {
    StripRight(StripLeft(s))
  }

  /** s.strip() is the contiguous part of s that starts after its leading
      whitespace and has no whitespace at either end; it is empty exactly when
      s is all whitespace. */
  lemma StripSound(s: string)
    ensures var r := Strip(s);
      |r| <= |s| &&
      Lead(s) + |r| <= |s| && r == s[Lead(s)..Lead(s) + |r|] &&
      (forall i :: 0 <= i < Lead(s) ==> IsSpace(s[i])) &&
      (forall i :: Lead(s) + |r| <= i < |s| ==> IsSpace(s[i])) &&
      (r != [] ==> !IsSpace(r[0]) && !IsSpace(r[|r| - 1])) &&
      (r == [] <==> forall i :: 0 <= i < |s| ==> IsSpace(s[i]))
  {
    var l := StripLeft(s);
    var r := StripRight(l);
    var k := |s| - |l|;
    StripLeftSound(s);
    StripRightSound(l);
    assert r == s[k..k + |r|];
    forall i | k + |r| <= i < |s| ensures IsSpace(s[i]) {
      assert s[i] == l[i - k];
    }
    if r == [] {
      assert l == [];
    } else {
      assert r[0] == l[0];
    }
  }

  /** The stripped form of every line, in order. */
  function StripAll(lines: seq<string>): (ts: seq<string>)
    ensures |ts| == |lines|
    ensures forall i :: 0 <= i < |lines| ==> ts[i] == Strip(lines[i])
  {
    seq(|lines|, i requires 0 <= i < |lines| => Strip(lines[i]))
  }

  /** The non-empty texts of ts, in order. */
  function NonEmpty(ts: seq<string>): seq<string>
  {
    if ts == [] then [] else (if ts[0] != [] then [ts[0]] else []) + NonEmpty(ts[1..])
  }

  /** [line.strip() for line in lines if line.strip()]. */
  function Cleaned(lines: seq<string>): seq<string>
  {
    NonEmpty(StripAll(lines))
  }

  /** A line as it is drawn: non-empty, at most `limit` characters, no
      whitespace at either end. */
  ghost predicate Displayable(l: string, limit: nat)
  {
    0 < |l| <= limit && !IsSpace(l[0]) && !IsSpace(l[|l| - 1])
  }

  /** NonEmpty keeps only texts of ts, and never an empty one. */
  lemma {:induction false} NonEmptySound(ts: seq<string>)
    ensures |NonEmpty(ts)| <= |ts|
    ensures forall i :: 0 <= i < |NonEmpty(ts)| ==> NonEmpty(ts)[i] != [] && NonEmpty(ts)[i] in ts
  {
    if ts != [] {
      NonEmptySound(ts[1..]);
      var head := if ts[0] != [] then [ts[0]] else [];
      var r := NonEmpty(ts);
      assert r == head + NonEmpty(ts[1..]);
      forall i | 0 <= i < |r| ensures r[i] != [] && r[i] in ts {
        if i >= |head| {
          assert r[i] == NonEmpty(ts[1..])[i - |head|];
          assert r[i] in ts[1..];
        }
      }
    }
  }

  /** Every displayed line is non-empty, has no whitespace at either end and
      is no longer than the pieces it came from; no more lines come out than
      went in. */
  lemma CleanedSound(lines: seq<string>, limit: nat)
    requires forall i :: 0 <= i < |lines| ==> |lines[i]| <= limit
    ensures |Cleaned(lines)| <= |lines|
    ensures forall i :: 0 <= i < |Cleaned(lines)| ==> Displayable(Cleaned(lines)[i], limit)
  {
    var ts := StripAll(lines);
    NonEmptySound(ts);
    forall i | 0 <= i < |Cleaned(lines)| ensures Displayable(Cleaned(lines)[i], limit) {
      var l := Cleaned(lines)[i];
      var j :| 0 <= j < |ts| && ts[j] == l;
      StripSound(lines[j]);
    }
  }

  lemma {:induction false} NonEmptyAppend(xs: seq<string>, ys: seq<string>)
    ensures NonEmpty(xs + ys) == NonEmpty(xs) + NonEmpty(ys)
  {
    if xs == [] {
      assert xs + ys == ys;
    } else {
      assert (xs + ys)[0] == xs[0] && (xs + ys)[1..] == xs[1..] + ys;
      NonEmptyAppend(xs[1..], ys);
    }
  }

  /** Trimming keeps the order and works line by line. */
  lemma CleanedAppend(xs: seq<string>, ys: seq<string>)
    ensures Cleaned(xs + ys) == Cleaned(xs) + Cleaned(ys)
  {
    assert StripAll(xs + ys) == StripAll(xs) + StripAll(ys);
    NonEmptyAppend(StripAll(xs), StripAll(ys));
  }

  /** A single line is drawn as its stripped form unless that is empty:
      with CleanedAppend, this determines Cleaned on every list of lines. */
  lemma CleanedOne(x: string)
    ensures Cleaned([x]) == if Strip(x) == [] then [] else [Strip(x)]
  {
    assert StripAll([x]) == [Strip(x)];
    assert NonEmpty([Strip(x)]) == (if Strip(x) != [] then [Strip(x)] else []) + NonEmpty([]);
  }
}
