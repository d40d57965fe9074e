/** The Python string operations the two scripts rely on, over `string`
    (a sequence of Unicode scalar values, like a Python `str`):
    `needle in hay`, `s.split(sep)`, `s.split()`, `int(s)` and `str(n)`. */
module PyText {
  import opened Options
  import opened Seqs

  // ---------------------------------------------------------------------
  // Substring test: `needle in hay`
  // ---------------------------------------------------------------------

  /** `needle` occurs in `hay` starting at position `i`. */
  ghost predicate OccursAt(hay: string, needle: string, i: int) {
    0 <= i && i + |needle| <= |hay| && hay[i..i + |needle|] == needle
  }

  /** Python's `needle in hay` on strings. */
  function Contains(hay: string, needle: string): bool
    decreases |hay|
  {
    if |hay| < |needle| then false
    else if hay[..|needle|] == needle then true
    else |hay| > 0 && Contains(hay[1..], needle)
  }

  /** `Contains` holds exactly when the needle occurs at some position. */
  lemma {:induction false} ContainsIff(hay: string, needle: string)
    ensures Contains(hay, needle) <==> exists i :: OccursAt(hay, needle, i)
    decreases |hay|
  {
    if |hay| < |needle| {
    } else if hay[..|needle|] == needle {
      assert OccursAt(hay, needle, 0);
    } else {
      var tail := hay[1..];
      ContainsIff(tail, needle);
      if i :| OccursAt(hay, needle, i) {
        assert tail[i - 1..i - 1 + |needle|] == hay[i..i + |needle|];
        assert OccursAt(tail, needle, i - 1);
      }
      if j :| OccursAt(tail, needle, j) {
        assert tail[j..j + |needle|] == hay[j + 1..j + 1 + |needle|];
        assert OccursAt(hay, needle, j + 1);
      }
    }
  }

  /** A one-character needle is found exactly when the character occurs. */
  lemma ContainsChar(s: string, c: char)
    ensures Contains(s, [c]) <==> c in s
  {
    ContainsIff(s, [c]);
    if c in s {
      var i :| 0 <= i < |s| && s[i] == c;
      assert OccursAt(s, [c], i);
    }
    if i :| OccursAt(s, [c], i) {
      assert s[i..i + 1][0] == s[i];
    }
  }

  /** Whatever occurs in `mid` occurs in any string that has `mid` inside it. */
  lemma ContainsWithin(pre: string, mid: string, post: string, needle: string)
    requires Contains(mid, needle)
    ensures Contains(pre + mid + post, needle)
  {
    ContainsIff(mid, needle);
    var i :| OccursAt(mid, needle, i);
    var s := pre + mid + post;
    assert s[|pre| + i..|pre| + i + |needle|] == mid[i..i + |needle|];
    assert OccursAt(s, needle, |pre| + i);
    ContainsIff(s, needle);
  }

  /** A string contains itself wherever it is embedded. */
  lemma ContainsInfix(pre: string, needle: string, post: string)
    ensures Contains(pre + needle + post, needle)
  {
    assert OccursAt(needle, needle, 0);
    ContainsIff(needle, needle);
    ContainsWithin(pre, needle, post, needle);
  }

  // ---------------------------------------------------------------------
  // Splitting on a separator: `s.split(sep)`
  // ---------------------------------------------------------------------

  /** Python's `s.split(sep)` for a one-character separator: the pieces
      between consecutive separators, empty pieces included. Defined one
      character at a time: a separator opens a new piece, any other
      character joins the front of the first piece of the rest. */
  function Split(s: string, sep: char): (parts: seq<string>)
    ensures |parts| >= 1
    decreases |s|
  {
    if |s| == 0 then [""]
    else
      var rest := Split(s[1..], sep);
      if s[0] == sep then [""] + rest
      else [[s[0]] + rest[0]] + rest[1..]
  }

  /** A split yields a single piece exactly when the separator is absent. */
  lemma {:induction false} SplitSingle(s: string, sep: char)
    ensures |Split(s, sep)| == 1 <==> sep !in s
    decreases |s|
  {
    if |s| > 0 {
      SplitSingle(s[1..], sep);
      assert s == [s[0]] + s[1..];
    }
  }

  /** Without the separator, the whole string is the only piece. */
  lemma {:induction false} SplitFree(s: string, sep: char)
    requires sep !in s
    ensures Split(s, sep) == [s]
    decreases |s|
  {
    if |s| > 0 {
      assert sep !in s[1..];
      SplitFree(s[1..], sep);
      assert s == [s[0]] + s[1..];
    }
  }

  /** No piece of a split contains the separator. */
  lemma {:induction false} SplitPiecesFree(s: string, sep: char, i: int)
    requires 0 <= i < |Split(s, sep)|
    ensures sep !in Split(s, sep)[i]
    decreases |s|
  {
    if |s| > 0 {
      var rest := Split(s[1..], sep);
      if s[0] == sep {
        if i > 0 {
          SplitPiecesFree(s[1..], sep, i - 1);
        }
      } else if i == 0 {
        SplitPiecesFree(s[1..], sep, 0);
        assert sep !in [s[0]] + rest[0];
      } else {
        SplitPiecesFree(s[1..], sep, i);
        assert Split(s, sep)[i] == rest[i];
      }
    }
  }

  /** Python's `sep.join(parts)`. */
  function Join(parts: seq<string>, sep: char): string {
    if |parts| == 0 then ""
    else if |parts| == 1 then parts[0]
    else parts[0] + [sep] + Join(parts[1..], sep)
  }

  /** Joining a first piece onto further pieces puts one separator between. */
  lemma JoinCons(head: string, rest: seq<string>, sep: char)
    requires |rest| >= 1
    ensures Join([head] + rest, sep) == head + [sep] + Join(rest, sep)
  {
    assert ([head] + rest)[1..] == rest;
  }

  /** A character added to the front of the first piece comes first in the
      join. */
  lemma JoinPrepend(c: char, parts: seq<string>, sep: char)
    requires |parts| >= 1
    ensures Join([[c] + parts[0]] + parts[1..], sep) == [c] + Join(parts, sep)
  {
    if |parts| > 1 {
      JoinCons([c] + parts[0], parts[1..], sep);
      JoinCons(parts[0], parts[1..], sep);
      assert parts == [parts[0]] + parts[1..];
    }
  }

  /** Joining the pieces back with the separator restores the string. */
  lemma {:induction false} JoinSplit(s: string, sep: char)
    ensures Join(Split(s, sep), sep) == s
    decreases |s|
  {
    if |s| > 0 {
      var rest := Split(s[1..], sep);
      JoinSplit(s[1..], sep);
      if s[0] == sep {
        JoinCons("", rest, sep);
      } else {
        JoinPrepend(s[0], rest, sep);
      }
      assert s == [s[0]] + s[1..];
    }
  }

  /** Splitting a join of separator-free pieces gives the pieces back. */
  lemma {:induction false} SplitJoin(parts: seq<string>, sep: char)
    requires |parts| >= 1
    requires forall i :: 0 <= i < |parts| ==> sep !in parts[i]
    ensures Split(Join(parts, sep), sep) == parts
    decreases |parts|
  {
    if |parts| == 1 {
      SplitFree(parts[0], sep);
    } else {
      var head := parts[0];
      var tail := Join(parts[1..], sep);
      SplitFirstPiece(head, sep, tail);
      SplitJoin(parts[1..], sep);
      assert parts == [head] + parts[1..];
    }
  }

  /** A piece without the separator, followed by the separator, is split off
      as the first piece. */
  lemma {:induction false} SplitFirstPiece(piece: string, sep: char, rest: string)
    requires sep !in piece
    ensures Split(piece + [sep] + rest, sep) == [piece] + Split(rest, sep)
    decreases |piece|
  {
    var s := piece + [sep] + rest;
    if |piece| == 0 {
      assert s[1..] == rest;
    } else {
      assert sep !in piece[1..];
      SplitFirstPiece(piece[1..], sep, rest);
      assert s[1..] == piece[1..] + [sep] + rest;
      assert piece == [piece[0]] + piece[1..];
    }
  }

  /** An occurrence past position `k` is an occurrence in `s[k + 1..]`. */
  lemma OccursInSuffix(s: string, k: int, needle: string, i: int)
    requires 0 <= k < |s|
    requires OccursAt(s, needle, i) && k < i
    ensures OccursAt(s[k + 1..], needle, i - k - 1)
  {
    assert s[k + 1..][i - k - 1..i - k - 1 + |needle|] == s[i..i + |needle|];
  }

  /** An occurrence in `s[k + 1..]` is an occurrence in `s`, shifted. */
  lemma OccursAfter(s: string, k: int, needle: string, b: int)
    requires 0 <= k < |s| && OccursAt(s[k + 1..], needle, b)
    ensures OccursAt(s, needle, k + 1 + b)
  {
    assert s[k + 1..][b..b + |needle|] == s[k + 1 + b..k + 1 + b + |needle|];
  }

  /** A prefix loses its first character along with the string. */
  lemma PrefixTail(s: string, needle: string)
    requires OccursAt(s, needle, 0) && |needle| > 0
    ensures OccursAt(s[1..], needle[1..], 0)
  {
    assert s[1..][..|needle| - 1] == s[..|needle|][1..];
  }

  /** A prefix gains a character along with the string. */
  lemma PrefixCons(c: char, s: string, needle: string)
    requires OccursAt(s, needle, 0)
    ensures OccursAt([c] + s, [c] + needle, 0)
  {
    assert ([c] + s)[..|needle| + 1] == [c] + s[..|needle|];
  }

  /** An occurrence of a needle inside a string that itself occurs at `a`. */
  lemma OccursTransitive(s: string, mid: string, a: int, needle: string, j: int)
    requires OccursAt(s, mid, a) && OccursAt(mid, needle, j)
    ensures OccursAt(s, needle, a + j)
  {
    var n := |needle|;
    forall t | 0 <= t < n
      ensures s[a + j..a + j + n][t] == needle[t]
    {
      calc {
        s[a + j..a + j + n][t];
        s[a..a + |mid|][j + t];
        mid[j..j + n][t];
      }
    }
  }

  /** An occurrence of a needle free of the separator lies inside one of the
      pieces; the lemma returns which piece and where. A prefix of the string
      is a prefix of the first piece. */
  lemma {:induction false} OccurrenceInSomePiece(s: string, sep: char, needle: string, i: int)
    returns (j: nat, a: int)
    requires OccursAt(s, needle, i) && sep !in needle
    ensures j < |Split(s, sep)| && OccursAt(Split(s, sep)[j], needle, a)
    ensures i == 0 ==> j == 0 && a == 0
    decreases |s|
  {
    if |s| == 0 || (|needle| == 0 && i == 0) {
      j, a := 0, 0;
    } else if i == 0 {
      assert needle[0] == s[0];
      PrefixTail(s, needle);
      assert sep !in needle[1..];
      var _, _ := OccurrenceInSomePiece(s[1..], sep, needle[1..], 0);
      FirstPieceGrows(s, sep, needle);
      j, a := 0, 0;
    } else {
      OccursInSuffix(s, 0, needle, i);
      var j', a' := OccurrenceInSomePiece(s[1..], sep, needle, i - 1);
      j, a := PieceOfRest(s, sep, needle, j', a');
    }
  }

  /** The first piece of `s` is its first character, unless that is the
      separator, followed by the first piece of the rest. */
  lemma FirstPieceGrows(s: string, sep: char, needle: string)
    requires |s| > 0 && |needle| > 0 && needle[0] == s[0] != sep
    requires OccursAt(Split(s[1..], sep)[0], needle[1..], 0)
    ensures OccursAt(Split(s, sep)[0], needle, 0)
  {
    var rest := Split(s[1..], sep);
    PrefixCons(s[0], rest[0], needle[1..]);
    assert Split(s, sep)[0] == [s[0]] + rest[0];
    assert needle == [s[0]] + needle[1..];
  }

  /** An occurrence in a piece of `s[1..]` is an occurrence in the matching
      piece of `s`. */
  lemma PieceOfRest(s: string, sep: char, needle: string, j': nat, a': int)
    returns (j: nat, a: int)
    requires |s| > 0 && j' < |Split(s[1..], sep)|
    requires OccursAt(Split(s[1..], sep)[j'], needle, a')
    ensures j < |Split(s, sep)| && OccursAt(Split(s, sep)[j], needle, a)
  {
    var rest := Split(s[1..], sep);
    if s[0] == sep {
      assert Split(s, sep)[j' + 1] == rest[j'];
      j, a := j' + 1, a';
    } else if j' == 0 {
      assert Split(s, sep)[0] == [s[0]] + rest[0];
      OccursAfter([s[0]] + rest[0], 0, needle, a');
      j, a := 0, a' + 1;
    } else {
      assert Split(s, sep)[j'] == rest[j'];
      j, a := j', a';
    }
  }

  /** A needle free of the separator that occurs in `s` occurs inside one of
      its pieces: it cannot straddle a separator. */
  lemma SplitKeepsOccurrence(s: string, sep: char, needle: string)
    requires Contains(s, needle)
    requires sep !in needle
    ensures exists i :: 0 <= i < |Split(s, sep)| && Contains(Split(s, sep)[i], needle)
  {
    ContainsIff(s, needle);
    var i :| OccursAt(s, needle, i);
    var j, a := OccurrenceInSomePiece(s, sep, needle, i);
    ContainsIff(Split(s, sep)[j], needle);
  }

  /** Every piece of a split occurs in the original string, the first one at
      the start; the lemma returns where. */
  lemma {:induction false} PiecePosition(s: string, sep: char, i: int) returns (a: int)
    requires 0 <= i < |Split(s, sep)|
    ensures OccursAt(s, Split(s, sep)[i], a)
    ensures i == 0 ==> a == 0
    decreases |s|
  {
    if |s| == 0 {
      a := 0;
    } else {
      var rest := Split(s[1..], sep);
      if i == 0 && s[0] == sep {
        a := 0;
      } else if i == 0 {
        var b := PiecePosition(s[1..], sep, 0);
        PrefixCons(s[0], s[1..], rest[0]);
        assert s == [s[0]] + s[1..];
        a := 0;
      } else {
        var j := if s[0] == sep then i - 1 else i;
        assert Split(s, sep)[i] == rest[j];
        var b := PiecePosition(s[1..], sep, j);
        OccursAfter(s, 0, rest[j], b);
        a := 1 + b;
      }
    }
  }

  /** A needle occurring in one piece occurs in the whole string. */
  lemma PieceOccurrenceInWhole(s: string, sep: char, i: int, needle: string)
    requires 0 <= i < |Split(s, sep)|
    requires Contains(Split(s, sep)[i], needle)
    ensures Contains(s, needle)
  {
    var piece := Split(s, sep)[i];
    var a := PiecePosition(s, sep, i);
    ContainsIff(piece, needle);
    var j :| OccursAt(piece, needle, j);
    OccursTransitive(s, piece, a, needle, j);
    ContainsIff(s, needle);
  }

  // ---------------------------------------------------------------------
  // Splitting on whitespace: `s.split()`
  // ---------------------------------------------------------------------

  /** The characters Python's `str.isspace` accepts. */
  predicate IsSpace(c: char) {
    || c == ' '
    || ('\t' <= c <= '\r')
    || ('\U{1C}' <= c <= '\U{1F}')
    || c == '\U{85}' || c == '\U{A0}' || c == '\U{1680}'
    || ('\U{2000}' <= c <= '\U{200A}')
    || c == '\U{2028}' || c == '\U{2029}' || c == '\U{202F}' || c == '\U{205F}'
    || c == '\U{3000}'
  }

  predicate IsNotSpace(c: char) {
    !IsSpace(c)
  }

  /** Length of the run of non-whitespace characters that starts `s`. */
  function WordLength(s: string): (k: nat)
    ensures k <= |s|
    ensures forall i :: 0 <= i < k ==> !IsSpace(s[i])
    ensures k < |s| ==> IsSpace(s[k])
  {
    if |s| == 0 || IsSpace(s[0]) then 0 else 1 + WordLength(s[1..])
  }

  /** Python's `s.split()` with no argument: the maximal runs of
      non-whitespace characters, in order, with no empty words. */
  function Words(s: string): (ws: seq<string>)
    ensures forall i :: 0 <= i < |ws| ==> |ws[i]| > 0
    ensures forall i, j :: 0 <= i < |ws| && 0 <= j < |ws[i]| ==> !IsSpace(ws[i][j])
    decreases |s|
  {
    if |s| == 0 then []
    else if IsSpace(s[0]) then Words(s[1..])
    else
      var k := WordLength(s);
      [s[..k]] + Words(s[k..])
  }

  /** Concatenation of a list of strings. */
  function Concat(ws: seq<string>): string {
    if |ws| == 0 then "" else ws[0] + Concat(ws[1..])
  }

  /** Leading whitespace is dropped by both `Words` and the filter. */
  lemma SkipLeadingSpace(s: string)
    requires |s| > 0 && IsSpace(s[0])
    ensures Filter(s, IsNotSpace) == Filter(s[1..], IsNotSpace)
  {
    assert s == [s[0]] + s[1..];
    FilterAppend([s[0]], s[1..], IsNotSpace);
    assert Filter([s[0]], IsNotSpace) == Filter([], IsNotSpace) + [];
  }

  /** A leading word is kept whole by the filter. */
  lemma KeepLeadingWord(s: string, k: nat)
    requires k == WordLength(s)
    ensures Filter(s, IsNotSpace) == s[..k] + Filter(s[k..], IsNotSpace)
  {
    assert s == s[..k] + s[k..];
    FilterAppend(s[..k], s[k..], IsNotSpace);
    FilterKeepsAll(s[..k], IsNotSpace);
  }

  /** The words, put back together, are exactly the non-whitespace
      characters of the input, in order: nothing is lost and nothing added. */
  lemma {:induction false} WordsKeepNonSpace(s: string)
    ensures Concat(Words(s)) == Filter(s, IsNotSpace)
    decreases |s|
  {
    if |s| > 0 {
      if IsSpace(s[0]) {
        WordsKeepNonSpace(s[1..]);
        SkipLeadingSpace(s);
      } else {
        var k := WordLength(s);
        var ws := Words(s[k..]);
        WordsKeepNonSpace(s[k..]);
        KeepLeadingWord(s, k);
        assert Words(s) == [s[..k]] + ws;
        assert ([s[..k]] + ws)[1..] == ws;
      }
    }
  }

  /** `w` sits at position `a` of `s` as a whole word: whitespace or the
      edge of `s` on both sides. */
  ghost predicate WordAt(s: string, w: string, a: int) {
    && OccursAt(s, w, a)
    && (a == 0 || IsSpace(s[a - 1]))
    && (a + |w| == |s| || IsSpace(s[a + |w|]))
  }

  /** A whole word of `s[d..]` is a whole word of `s`, shifted by `d`, when
      the text at `d` does not continue a word of `s`. */
  lemma ShiftWordAt(s: string, d: int, w: string, b: int)
    requires 0 < d <= |s| && (IsSpace(s[d - 1]) || d == |s| || IsSpace(s[d]))
    requires WordAt(s[d..], w, b) && |w| > 0 && !IsSpace(w[0])
    ensures WordAt(s, w, d + b)
  {
    OccursAfter(s, d - 1, w, b);
    if b == 0 {
      assert w[0] == s[d..][0];
    } else {
      assert s[d..][b - 1] == s[d + b - 1];
    }
    if d + b + |w| < |s| {
      assert s[d..][b + |w|] == s[d + b + |w|];
    }
  }

  /** The words of `s.split()` are whole words of `s`, in order and apart:
      each starts at whitespace or the start of `s`, ends at whitespace or
      the end of `s`, and lies strictly after the one before. The lemma
      returns where each word starts. */
  lemma {:induction false} WordBounds(s: string) returns (starts: seq<int>)
    ensures WordStarts(s, Words(s), starts)
    decreases |s|
  {
    if |s| == 0 {
      starts := [];
    } else if IsSpace(s[0]) {
      var rest := WordBounds(s[1..]);
      starts := ShiftStarts(s, 1, Words(s[1..]), rest);
      assert Words(s) == Words(s[1..]);
    } else {
      var rest := WordBounds(s[WordLength(s)..]);
      starts := PrependFirstWord(s, rest);
    }
  }

  /** `starts` gives the positions of `ws` as whole words of `s`, in order
      and apart. */
  ghost predicate WordStarts(s: string, ws: seq<string>, starts: seq<int>) {
    && |starts| == |ws|
    && (forall j :: 0 <= j < |starts| ==> WordAt(s, ws[j], starts[j]))
    && (forall j :: 0 < j < |starts| ==> starts[j - 1] + |ws[j - 1]| < starts[j])
  }

  /** The leading word at 0, then the words of the rest shifted past it. */
  lemma PrependFirstWord(s: string, rest: seq<int>) returns (starts: seq<int>)
    requires |s| > 0 && !IsSpace(s[0])
    requires WordStarts(s[WordLength(s)..], Words(s[WordLength(s)..]), rest)
    ensures WordStarts(s, Words(s), starts)
  {
    var k := WordLength(s);
    var ws := Words(s[k..]);
    var shifted := ShiftStarts(s, k, ws, rest);
    assert s[0..k] == s[..k];
    assert WordAt(s, s[..k], 0);
    if |shifted| > 0 {
      assert ws[0][0] == s[k..][rest[0]];
      assert rest[0] > 0;
    }
    starts := ConsStarts(s, s[..k], ws, shifted);
    assert Words(s) == [s[..k]] + ws;
  }

  /** A whole word at 0 ahead of whole words that start past its end. */
  lemma ConsStarts(s: string, w: string, ws: seq<string>, starts': seq<int>) returns (starts: seq<int>)
    requires WordAt(s, w, 0) && WordStarts(s, ws, starts')
    requires |starts'| > 0 ==> |w| < starts'[0]
    ensures starts == [0] + starts'
    ensures WordStarts(s, [w] + ws, starts)
  {
    starts := [0] + starts';
    forall j | 0 <= j < |starts|
      ensures WordAt(s, ([w] + ws)[j], starts[j])
    {
      if j > 0 {
        assert ([w] + ws)[j] == ws[j - 1] && starts[j] == starts'[j - 1];
      }
    }
    forall j | 0 < j < |starts|
      ensures starts[j - 1] + |([w] + ws)[j - 1]| < starts[j]
    {
      assert starts[j] == starts'[j - 1];
      if j > 1 {
        assert ([w] + ws)[j - 1] == ws[j - 2] && starts[j - 1] == starts'[j - 2];
      }
    }
  }

  /** Whole-word positions in `s[d..]` moved to `s`, given that the text at
      `d` does not continue a word of `s`. */
  lemma ShiftStarts(s: string, d: int, ws: seq<string>, rest: seq<int>) returns (starts: seq<int>)
    requires 0 < d <= |s|
    requires IsSpace(s[d - 1]) || d == |s| || IsSpace(s[d])
    requires forall j :: 0 <= j < |ws| ==> |ws[j]| > 0 && !IsSpace(ws[j][0])
    requires WordStarts(s[d..], ws, rest)
    ensures |starts| == |rest|
    ensures forall j :: 0 <= j < |starts| ==> starts[j] == d + rest[j]
    ensures WordStarts(s, ws, starts)
  {
    starts := seq(|rest|, j requires 0 <= j < |rest| => d + rest[j]);
    forall j | 0 <= j < |starts|
      ensures WordAt(s, ws[j], starts[j])
    {
      ShiftWordAt(s, d, ws[j], rest[j]);
    }
  }

  /** The run of non-whitespace before the first whitespace character. */
  lemma {:induction false} WordLengthOf(w: string, c: char, rest: string)
    requires forall i :: 0 <= i < |w| ==> !IsSpace(w[i])
    requires IsSpace(c)
    ensures WordLength(w + [c] + rest) == |w|
    decreases |w|
  {
    if |w| > 0 {
      assert (w + [c] + rest)[1..] == w[1..] + [c] + rest;
      WordLengthOf(w[1..], c, rest);
    }
  }

  /** A non-empty word followed by whitespace is split off as the first word. */
  lemma FirstWord(w: string, c: char, rest: string)
    requires |w| > 0
    requires forall i :: 0 <= i < |w| ==> !IsSpace(w[i])
    requires IsSpace(c)
    ensures Words(w + [c] + rest) == [w] + Words(rest)
  {
    var s := w + [c] + rest;
    WordLengthOf(w, c, rest);
    assert s[..|w|] == w;
    assert s[|w|..] == [c] + rest;
    assert ([c] + rest)[1..] == rest;
  }

  // ---------------------------------------------------------------------
  // Integers: `int(s)` and `str(n)` in base 10
  // ---------------------------------------------------------------------

  predicate IsDigit(c: char) {
    '0' <= c <= '9'
  }

  /** Digits with single underscores between them, the body Python's `int()`
      accepts in base 10. */
  predicate IsDigitString(s: string) {
    && |s| > 0
    && IsDigit(s[0])
    && IsDigit(s[|s| - 1])
    && (forall i :: 0 <= i < |s| ==> IsDigit(s[i]) || s[i] == '_')
    && (forall i :: 0 <= i < |s| - 1 && s[i] == '_' ==> s[i + 1] != '_')
  }

  /** The decimal value of a string of digits and underscores. */
  function DigitsValue(s: string): nat
    requires forall i :: 0 <= i < |s| ==> IsDigit(s[i]) || s[i] == '_'
  {
    if |s| == 0 then 0
    else
      var init := DigitsValue(s[..|s| - 1]);
      var last := s[|s| - 1];
      assert IsDigit(last) || last == '_';
      if last == '_' then init
      else init * 10 + (last as int - '0' as int)
  }

  /** The most decimal digits `int()` and `str()` convert: Python 3.11 and
      later raise `ValueError` beyond `sys.int_info.default_max_str_digits`.
      Underscores and the sign do not count. */
  const MaxStrDigits: nat := 4300

  /** The value of a digit string, or the `ValueError` (`None`) when it is
      malformed or longer than the digit limit. */
  function ParseDigits(body: string): Option<nat> {
    if IsDigitString(body) && Count(body, IsDigit) <= MaxStrDigits then Some(DigitsValue(body))
    else None
  }

  /** Python's `int(s)` on a string without surrounding whitespace: an
      optional sign followed by a digit string of at most 4300 digits;
      anything else is the `ValueError`, written `None`. */
  function ParseInt(s: string): Option<int> {
    if |s| > 0 && (s[0] == '+' || s[0] == '-') then
      match ParseDigits(s[1..])
      case Some(v) =>
        var signed: int := if s[0] == '-' then -(v as int) else v;
        Some(signed)
      case None => None
    else
      match ParseDigits(s)
      case Some(v) => Some(v)
      case None => None
  }

  function DigitChar(d: nat): char
    requires d < 10
  {
    ('0' as int + d) as char
  }

  /** The decimal text of a natural number, as `str(n)` writes it. */
  function NatToString(n: nat): (s: string)
    ensures |s| > 0
    ensures forall i :: 0 <= i < |s| ==> IsDigit(s[i])
  {
    if n < 10 then [DigitChar(n)]
    else NatToString(n / 10) + [DigitChar(n % 10)]
  }

  /** The decimal text of any integer, as `str(n)` writes it. */
  function IntToString(n: int): string {
    if n < 0 then "-" + NatToString(-n) else NatToString(n)
  }

  /** The digits of `str(n)` read back as `n`. */
  lemma {:induction false} NatToStringValue(n: nat)
    ensures IsDigitString(NatToString(n))
    ensures DigitsValue(NatToString(n)) == n
    decreases n
  {
    var s := NatToString(n);
    if n >= 10 {
      NatToStringValue(n / 10);
      assert s[..|s| - 1] == NatToString(n / 10);
    }
  }

  /** `str(n)` of a natural number has no sign and reads back as `n`, up to
      the digit limit. */
  lemma ParseNatString(n: nat)
    ensures ParseInt(NatToString(n)) == if |NatToString(n)| <= MaxStrDigits then Some(n) else None
  {
    var s := NatToString(n);
    NatToStringValue(n);
    CountAll(s, IsDigit);
    assert IsDigit(s[0]);
  }

  /** `int(str(n)) == n` for every integer of at most 4300 digits; longer
      ones are refused. */
  lemma ParseIntRoundTrip(n: int)
    ensures var digits := NatToString(if n < 0 then -n else n);
      ParseInt(IntToString(n)) == if |digits| <= MaxStrDigits then Some(n) else None
  {
    if n < 0 {
      var digits := NatToString(-n);
      var s := "-" + digits;
      NatToStringValue(-n);
      CountAll(digits, IsDigit);
      assert s[0] == '-' && s[1..] == digits;
    } else {
      ParseNatString(n);
    }
  }
}
