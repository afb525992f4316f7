/** Justifying a line of words, to the left and to both margins. */
module Justify {
  import opened Bytes
  import opened BStrings
  import opened Pieces
  import opened Split

  /** The entries that are not empty. */
  function NonEmpty(list: seq<seq<byte>>): (r: seq<seq<byte>>) {
    if list == [] then []
    else NonEmpty(list[..|list| - 1]) + (if list[|list| - 1] == [] then [] else [list[|list| - 1]])
  }

  /** The words of s: what stands between the spaces c, empty entries left out. */
  function Words(s: seq<byte>, c: byte): (w: seq<seq<byte>>) {
    NonEmpty(Cut(s, [c]))
  }

  lemma {:induction false} NonEmptyEntries(list: seq<seq<byte>>, k: nat)
    requires k < |NonEmpty(list)|
    ensures NonEmpty(list)[k] in list && NonEmpty(list)[k] != []
    decreases |list|
  {
    var front := list[..|list| - 1];
    if k < |NonEmpty(front)| {
      NonEmptyEntries(front, k);
    }
  }

  /** No word holds a space or is empty. */
  lemma WordsPlain(s: seq<byte>, c: byte, k: nat)
    requires k < |Words(s, c)|
    ensures Words(s, c)[k] != [] && c !in Words(s, c)[k]
  {
    CutIsCut(s, [c]);
    CutIsClear(s, Cut(s, [c]), c);
    NonEmptyEntries(Cut(s, [c]), k);
  }

  lemma NonEmptyLast(front: seq<seq<byte>>, last: seq<byte>)
    ensures NonEmpty(front + [last]) == NonEmpty(front) + (if last == [] then [] else [last])
  {
  }

  lemma {:induction false} JoinLast(front: seq<seq<byte>>, last: seq<byte>, sep: seq<byte>)
    ensures Join(front + [last], sep) == if front == [] then last else Join(front, sep) + sep + last
    decreases |front|
  {
    if front != [] {
      var rest := front[1..];
      assert (front + [last])[1..] == rest + [last];
      JoinLast(rest, last, sep);
      if rest == [] {
        assert front == [front[0]];
      } else {
        Assoc(front[0] + sep, Join(rest, sep), sep + last);
        Assoc(Join(rest, sep), sep, last);
        Assoc(Join(front, sep), sep, last);
      }
    }
  }

  /** Appending one octet to s ends its last entry, or lengthens it. */
  lemma CutAppend(s: seq<byte>, c: byte, x: byte)
    ensures var list := Cut(s, [c]);
            var front, last := list[..|list| - 1], list[|list| - 1];
            && Cut(s + [x], [c]) == (if x == c then list + [[]] else front + [last + [x]])
            && (last == [] <==> s == [] || s[|s| - 1] == c)
  {
    hide Cut, Join, IsCut;
    var list := Cut(s, [c]);
    var front, last := list[..|list| - 1], list[|list| - 1];
    CutIsCut(s, [c]);
    CutIsClear(s, list, c);
    assert list == front + [last];
    JoinLast(front, last, [c]);
    LastEntry(s, front, last, c);
    if x == c {
      JoinLast(list, [], [c]);
      assert Join(list + [[]], [c]) == s + [x];
      CutOfJoin(list + [[]], c);
    } else {
      var longer := front + [last + [x]];
      JoinLast(front, last + [x], [c]);
      assert Join(longer, [c]) == s + [x];
      forall k | 0 <= k < |longer| ensures c !in longer[k] {
        if k < |front| { assert longer[k] == list[k]; }
      }
      CutOfJoin(longer, c);
    }
  }

  lemma LastEntry(s: seq<byte>, front: seq<seq<byte>>, last: seq<byte>, c: byte)
    requires s == (if front == [] then last else Join(front, [c]) + [c] + last) && c !in last
    ensures last == [] <==> s == [] || s[|s| - 1] == c
  {
  }

  lemma CutOfJoin(list: seq<seq<byte>>, c: byte)
    requires |list| > 0 && forall k :: 0 <= k < |list| ==> c !in list[k]
    ensures Cut(Join(list, [c]), [c]) == list
  {
    ClearIsCut(list, c);
    CutUnique(Join(list, [c]), [c], list);
  }

  /** Appending one octet: a space changes no word, anything else lengthens the last word or, after
      a space or at the start, begins a new one. */
  lemma WordsAppend(s: seq<byte>, c: byte, x: byte)
    ensures var w := Words(s, c);
            && (x == c ==> Words(s + [x], c) == w) && (s != [] && s[|s| - 1] != c ==> |w| > 0)
            && (x != c && (s == [] || s[|s| - 1] == c) ==> Words(s + [x], c) == w + [[x]])
            && (x != c && s != [] && s[|s| - 1] != c ==>
                  |w| > 0 && Words(s + [x], c) == w[..|w| - 1] + [w[|w| - 1] + [x]])
  {
    hide Cut;
    CutAppend(s, c, x);
    var list := Cut(s, [c]);
    var front, last := list[..|list| - 1], list[|list| - 1];
    assert list == front + [last];
    NonEmptyLast(front, last);
    NonEmptyLast(list, []);
    NonEmptyLast(front, last + [x]);
    if last == [] { assert last + [x] == [x]; }
  }

  /** s without the spaces that follow a space or open it. */
  function Squeeze(s: seq<byte>, c: byte): (q: seq<byte>)
    ensures |q| <= |s|
  {
    if s == [] then []
    else
      var n := |s| - 1;
      if s[n] != c || (n > 0 && s[n - 1] != c) then Squeeze(s[..n], c) + [s[n]] else Squeeze(s[..n], c)
  }

  /** The words w of a string joined by single spaces, and one space if open says that a space
      ends the string. */
  function Spaced(w: seq<seq<byte>>, c: byte, open: bool): (q: seq<byte>) {
    Join(w, [c]) + (if open && w != [] then [c] else [])
  }

  /** Squeezing leaves the words, joined by single spaces, and one space if one ends the string. */
  lemma {:induction false} SqueezeIsWords(s: seq<byte>, c: byte)
    ensures Squeeze(s, c) == Spaced(Words(s, c), c, s != [] && s[|s| - 1] == c)
    decreases |s|
  {
    hide Words, Squeeze, Spaced;
    if s == [] {
      NoWords(c);
      NothingSqueezed(c);
      NothingSpaced(c);
    } else {
      var t, x := s[..|s| - 1], s[|s| - 1];
      SqueezeIsWords(t, c);
      WordsAppend(t, c, x);
      assert s == t + [x];
      SqueezeStep(t, c, x);
      if t == [] { NoWords(c); }
      SpacedStep(Words(t, c), c, x);
    }
  }

  /** What one more octet does to the words and to the squeezed string. */
  lemma SpacedStep(w: seq<seq<byte>>, c: byte, x: byte)
    ensures Spaced(w, c, true) == if w != [] then Spaced(w, c, false) + [c] else Spaced(w, c, false)
    ensures x != c ==> Spaced(w + [[x]], c, false) == Spaced(w, c, true) + [x]
    ensures x != c && w != [] ==> Spaced(w[..|w| - 1] + [w[|w| - 1] + [x]], c, false) == Spaced(w, c, false) + [x]
  {
    hide Join;
    NothingJoined([c]);
    JoinLast(w, [x], [c]);
    if w != [] {
      var front, last := w[..|w| - 1], w[|w| - 1];
      assert w == front + [last];
      JoinLast(front, last, [c]);
      JoinLast(front, last + [x], [c]);
      assert Join(front + [last + [x]], [c]) == Join(w, [c]) + [x];
    }
  }

  lemma SqueezeStep(t: seq<byte>, c: byte, x: byte)
    ensures Squeeze(t + [x], c) == if x != c || (t != [] && t[|t| - 1] != c) then Squeeze(t, c) + [x] else Squeeze(t, c)
  {
  }

  lemma NoWords(c: byte)
    ensures Words([], c) == []
  {
    var none: seq<seq<byte>> := [[]];
    assert Cut([], [c]) == none;
    assert none == [] + none;
    NonEmptyLast([], []);
  }

  /** bJustifyLeft: the words joined by single spaces, compacted in place. A space outside the
      range of a character changes nothing. */
  method JustifyLeft(b: BString, space: int) returns (ret: int)
    requires b.Valid()
    modifies b, b.data
    ensures b.Valid() && ret == BSTR_OK && b.data == old(b.data)
    ensures b.Contents() ==
            if space != ToByte(space) then old(b.Contents())
            else Join(Words(old(b.Contents()), space), [space as byte])
  {
    hide Words, Squeeze, Join, Spaced;
    ret := BSTR_OK;
    var c := ToByte(space);
    if space != c { return; }
    ghost var s0 := b.Contents();
    SqueezeIsWords(s0, c);
    LastOfJoin(s0, c);
    SpacedEnds(Words(s0, c), c);
    var j := Compact(b, c);
    if j > 0 && b.data[j - 1] == c {
      assert b.data[j - 1] == b.data[..j][j - 1];
      j := j - 1;
      assert b.data[..j] == b.data[..j + 1][..j];
    }
    b.slen := j;
  }

  /** The loop of bJustifyLeft: j octets of the buffer remain. */
  method Compact(b: BString, c: byte) returns (j: nat)
    requires b.Valid()
    modifies b.data
    ensures j <= b.slen && b.data[..j] == Squeeze(old(b.Contents()), c)
  {
    hide Squeeze;
    ghost var s0 := b.Contents();
    var i, s := 0, false;
    j := 0;
    NothingSqueezed(c);
    while i < b.slen
      invariant 0 <= j <= i <= |s0|
      invariant b.data[..j] == Squeeze(s0[..i], c) && b.data[i..b.slen] == s0[i..]
      invariant s <==> i > 0 && s0[i - 1] != c
    {
      var t := s;
      assert b.data[i..b.slen][0] == s0[i..][0];
      assert s0[..i + 1] == s0[..i] + [s0[i]];
      SqueezeStep(s0[..i], c, s0[i]);
      ghost var rest := b.data[i..b.slen];
      CopyDown(b.data, j, i, b.slen);
      assert rest[1..] == s0[i + 1..];
      s := c != b.data[j];
      if t || s { j := j + 1; }
      i := i + 1;
    }
    assert s0[..i] == s0;
  }

  lemma SpacedEnds(w: seq<seq<byte>>, c: byte)
    ensures Spaced(w, c, false) == Join(w, [c])
    ensures Spaced(w, c, true) == Join(w, [c]) + if w != [] then [c] else []
    ensures w == [] ==> Join(w, [c]) == []
  {
    hide Join;
    NothingJoined([c]);
    assert Join(w, [c]) + [] == Join(w, [c]);
  }

  lemma NothingSpaced(c: byte)
    ensures Spaced([], c, false) == []
  {
  }

  lemma NothingSqueezed(c: byte)
    ensures Squeeze([], c) == []
  {
  }

  method CopyDown(d: array<byte>, j: nat, i: nat, n: nat)
    requires j <= i < n <= d.Length
    modifies d
    ensures d[j] == old(d[i]) && d[..j] == old(d[..j]) && d[..j + 1] == old(d[..j]) + [old(d[i])]
    ensures d[i + 1..n] == old(d[i..n])[1..]
  {
    d[j] := d[i];
  }

  /** The words joined do not end in a space. */
  lemma LastOfJoin(s: seq<byte>, c: byte)
    ensures var j := Join(Words(s, c), [c]); j == [] || j[|j| - 1] != c
  {
    var w := Words(s, c);
    if |w| > 0 {
      WordsPlain(s, c, |w| - 1);
      var front, last := w[..|w| - 1], w[|w| - 1];
      assert w == front + [last];
      JoinLast(front, last, [c]);
      assert last[|last| - 1] in last;
    }
  }

  /** The octets of all words, and the spaces of all gaps. */
  function Total(w: seq<seq<byte>>): (n: nat) {
    if w == [] then 0 else Total(w[..|w| - 1]) + |w[|w| - 1]|
  }

  function Sum(gaps: seq<nat>): (n: nat) {
    if gaps == [] then 0 else Sum(gaps[..|gaps| - 1]) + gaps[|gaps| - 1]
  }

  function Spaces(n: nat, c: byte): (s: seq<byte>)
    ensures |s| == n
  {
    seq(n, _ => c)
  }

  /** The words with the gaps between them. */
  function Stretched(w: seq<seq<byte>>, gaps: seq<nat>, c: byte): (s: seq<byte>)
    requires |w| == |gaps| + 1
    decreases |w|
  {
    if |w| == 1 then w[0]
    else
      var n := |w| - 1;
      Stretched(w[..n], gaps[..n - 1], c) + Spaces(gaps[n - 1], c) + w[n]
  }

  lemma TotalLast(w: seq<seq<byte>>, last: seq<byte>)
    ensures Total(w + [last]) == Total(w) + |last|
  {
  }

  lemma SumLast(gaps: seq<nat>, last: nat)
    ensures Sum(gaps + [last]) == Sum(gaps) + last
  {
  }

  lemma StretchedLast(w: seq<seq<byte>>, gaps: seq<nat>, c: byte, gap: nat, last: seq<byte>)
    requires |w| == |gaps| + 1
    ensures Stretched(w + [last], gaps + [gap], c) == Stretched(w, gaps, c) + Spaces(gap, c) + last
  {
  }

  lemma {:induction false} StretchedLength(w: seq<seq<byte>>, gaps: seq<nat>, c: byte)
    requires |w| == |gaps| + 1
    ensures |Stretched(w, gaps, c)| == Total(w) + Sum(gaps)
    decreases |w|
  {
    if |w| > 1 {
      StretchedLength(w[..|w| - 1], gaps[..|gaps| - 1], c);
    } else {
      assert w[..0] == [] && gaps == [];
    }
  }

  lemma {:induction false} WordsAppendGap(s: seq<byte>, c: byte, n: nat)
    ensures Words(s + Spaces(n, c), c) == Words(s, c)
    decreases n
  {
    if n == 0 {
      assert s + Spaces(n, c) == s;
    } else {
      WordsAppendGap(s, c, n - 1);
      WordsAppend(s + Spaces(n - 1, c), c, c);
      assert s + Spaces(n, c) == s + Spaces(n - 1, c) + [c];
    }
  }

  lemma {:induction false} WordsAppendWord(s: seq<byte>, c: byte, word: seq<byte>)
    requires (s == [] || s[|s| - 1] == c) && word != [] && c !in word
    ensures Words(s + word, c) == Words(s, c) + [word]
    decreases |word|
  {
    hide Words;
    var t, x := word[..|word| - 1], word[|word| - 1];
    assert word == t + [x] && x in word;
    assert s + word == s + t + [x];
    if t == [] {
      assert s + t == s;
      WordsAppend(s, c, x);
    } else {
      WordsAppendWord(s, c, t);
      WordsAppend(s + t, c, x);
      assert (s + t)[|s + t| - 1] == t[|t| - 1] && t[|t| - 1] in word;
      var w := Words(s, c);
      assert (w + [t])[..|w|] == w && (w + [t])[|w|] == t;
    }
  }

  /** Stretching keeps the words and their order. */
  lemma {:induction false} StretchedKeepsWords(w: seq<seq<byte>>, gaps: seq<nat>, c: byte)
    requires |w| == |gaps| + 1
    requires forall k :: 0 <= k < |w| ==> w[k] != [] && c !in w[k]
    requires forall k :: 0 <= k < |gaps| ==> gaps[k] >= 1
    ensures Words(Stretched(w, gaps, c), c) == w
    decreases |w|
  {
    hide Words, Stretched;
    StretchedParts(w, gaps, c);
    if |w| == 1 {
      WordsAppendWord([], c, w[0]);
      NoWords(c);
      assert [] + w[0] == w[0] && [] + [w[0]] == w;
    } else {
      var n := |w| - 1;
      var front, gap := Stretched(w[..n], gaps[..n - 1], c), gaps[n - 1];
      StretchedKeepsWords(w[..n], gaps[..n - 1], c);
      WordsAppendGap(front, c, gap);
      assert (front + Spaces(gap, c))[|front| + gap - 1] == c;
      WordsAppendWord(front + Spaces(gap, c), c, w[n]);
      assert w == w[..n] + [w[n]];
    }
  }

  lemma StretchedParts(w: seq<seq<byte>>, gaps: seq<nat>, c: byte)
    requires |w| == |gaps| + 1
    ensures Stretched(w, gaps, c) ==
            if |w| == 1 then w[0]
            else Stretched(w[..|w| - 1], gaps[..|w| - 2], c) + Spaces(gaps[|w| - 2], c) + w[|w| - 1]
  {
  }

  lemma {:induction false} NonEmptyPrefix(list: seq<seq<byte>>, i: nat)
    requires i <= |list|
    ensures NonEmpty(list[..i]) <= NonEmpty(list)
    decreases |list|
  {
    if i < |list| {
      var front := list[..|list| - 1];
      NonEmptyPrefix(front, i);
      assert front[..i] == list[..i];
    } else {
      assert list[..i] == list;
    }
  }

  /** r spaces still go into c gaps, and q of them are due to each, r - c*q more to be spread. */
  predicate Fair(r: int, c: nat, q: nat) {
    if c == 0 then r == 0 else c * q <= r < c * q + c
  }

  /** Rounding one gap against what is left keeps the rest fair. */
  lemma FairStep(r: int, c: nat, q: nat)
    requires c > 0 && Fair(r, c, q)
    ensures var s := (r + c / 2) / c; (s == q || s == q + 1) && Fair(r - s, c - 1, q)
  {
    var m, h := r - c * q, c / 2;
    assert r + h == c * q + (m + h);
    if m + h < c {
      Quotient(r + h, c, q, m + h);
    } else {
      Quotient(r + h, c, q + 1, m + h - c);
    }
    assert (c - 1) * q == c * q - q;
  }

  lemma Quotient(x: int, c: nat, q: int, m: int)
    requires c > 0 && x == c * q + m && 0 <= m < c
    ensures x / c == q
  {
    var d := x / c;
    assert c * d + x % c == c * q + m;
    assert c * (d - q) == c * d - c * q && c * (q - d) == c * q - c * d;
    if d > q {
      AtLeastOnce(c, d - q);
    } else if d < q {
      AtLeastOnce(c, q - d);
    }
  }

  lemma AtLeastOnce(c: nat, k: nat)
    requires k >= 1
    ensures c * k >= c
  {
  }

  lemma FairStart(r: nat, c: nat)
    requires c > 0
    ensures Fair(r, c, r / c)
  {
  }

  /** gaps are all q or one more. */
  predicate Even(gaps: seq<nat>, q: nat) {
    forall k :: 0 <= k < |gaps| ==> gaps[k] == q || gaps[k] == q + 1
  }

  /** Each gap is its share of what is left of total spaces for c gaps, rounded to the nearest whole
      number, halves up. */
  predicate Rounded(gaps: seq<nat>, total: int, c: nat) {
    gaps == []
    || var n := |gaps| - 1;
       n < c && Rounded(gaps[..n], total, c) && Nearest(total - Sum(gaps[..n]), c - n, gaps[n])
  }

  predicate Nearest(rest: int, c: nat, gap: nat) {
    2 * rest - c < 2 * gap * c <= 2 * rest + c
  }

  lemma RoundingIsNearest(r: int, c: nat)
    requires c > 0 && r + c / 2 >= 0
    ensures Nearest(r, c, (r + c / 2) / c)
  {
    var x, g := r + c / 2, (r + c / 2) / c;
    assert x == c * g + x % c;
    assert 2 * g * c == 2 * (c * g);
  }

  lemma RoundedNext(gaps: seq<nat>, total: int, c: nat, gap: nat)
    requires Rounded(gaps, total, c) && |gaps| < c && Nearest(total - Sum(gaps), c - |gaps|, gap)
    ensures Rounded(gaps + [gap], total, c)
  {
    hide Nearest, Sum;
    assert (gaps + [gap])[..|gaps|] == gaps;
  }

  lemma {:induction false} RoundedAt(gaps: seq<nat>, total: int, c: nat, j: nat)
    requires Rounded(gaps, total, c) && j < |gaps|
    ensures |gaps| <= c
    ensures var rest, left := total - Sum(gaps[..j]), c - j;
            2 * rest - left < 2 * gaps[j] * left <= 2 * rest + left
    decreases |gaps|
  {
    hide Sum;
    var n := |gaps| - 1;
    if j < n {
      RoundedAt(gaps[..n], total, c, j);
      assert gaps[..n][..j] == gaps[..j];
    } else if n > 0 {
      RoundedAt(gaps[..n], total, c, 0);
    }
  }

  /** The counting loop of bJustifyMargin. */
  method CountWords(list: seq<seq<byte>>) returns (l: nat, c: nat)
    ensures l == Total(NonEmpty(list)) && c == |NonEmpty(list)|
  {
    l, c := 0, 0;
    for i := 0 to |list|
      invariant l == Total(NonEmpty(list[..i])) && c == |NonEmpty(list[..i])|
    {
      assert list[..i + 1] == list[..i] + [list[i]];
      NonEmptyLast(list[..i], list[i]);
      TotalLast(NonEmpty(list[..i]), list[i]);
      assert NonEmpty(list[..i]) + [] == NonEmpty(list[..i]);
      if |list[i]| > 0 {
        c := c + 1;
        l := l + |list[i]|;
      }
    }
    assert list[..|list|] == list;
  }

  /** bJustifyMargin: when at least two words fit with more than single spaces between them, the
      line becomes exactly width octets long, the words in order, the gaps all equal up to one and
      at least one, and each the share of what is left, rounded to the nearest number; otherwise the line
      is left-justified. */
  method JustifyMargin(b: BString, width: int, space: int) returns (ret: int, ghost gaps: seq<nat>, ghost q: nat)
    requires b.Valid()
    modifies b, b.data
    ensures b.Valid() && ret == BSTR_OK
    ensures var w := Words(old(b.Contents()), ToByte(space));
            if Total(w) + |w| >= width || |w| < 2 then
              b.Contents() == if space != ToByte(space) then old(b.Contents()) else Join(w, [space as byte])
            else
              && |b.Contents()| == width && |gaps| == |w| - 1
              && b.Contents() == Stretched(w, gaps, ToByte(space))
              && q >= 1 && Even(gaps, q)
              && Words(b.Contents(), ToByte(space)) == w
              && Rounded(gaps, width - Total(w), |gaps|)
  {
    hide Rounded, Even, Join, Stretched, NonEmpty, Cut;
    gaps, q := [], 0;
    var sp := ToByte(space);
    var sl := BSplit(b.data[..b.slen], sp);
    ghost var w := Words(b.Contents(), sp);
    var l, c := CountWords(sl);
    if l + c >= width || c < 2 {
      ret := JustifyLeft(b, space);
      return;
    }
    forall k | 0 <= k < |w| ensures w[k] != [] && sp !in w[k] { WordsPlain(b.Contents(), sp, k); }
    gaps, q := Stretch(b, sl, width, sp, l, c, w);
    StretchedLength(w, gaps, sp);
    StretchedKeepsWords(w, gaps, sp);
    ret := BSTR_OK;
  }

  /** Under way: the words placed, the gaps between them, and a fair rest of r spaces for the c
      words to come. */
  ghost predicate Placing(s: seq<byte>, placed: seq<seq<byte>>, gaps: seq<nat>, sp: byte, r: int, c: nat, q: nat) {
    && Even(gaps, q)
    && if placed == [] then s == [] && gaps == [] && (c > 0 ==> Fair(r, c - 1, q))
       else
         && |gaps| == |placed| - 1 && s == Stretched(placed, gaps, sp) && s != [] && Fair(r, c, q)
         && Rounded(gaps, r + Sum(gaps), c + |gaps|)
  }

  lemma PlaceFirst(gaps: seq<nat>, sp: byte, r: int, c: nat, q: nat, word: seq<byte>)
    requires Placing([], [], gaps, sp, r, c, q) && c > 0 && word != []
    ensures Placing(word, [word], gaps, sp, r, c - 1, q)
  {
  }

  lemma PlaceNext(s: seq<byte>, placed: seq<seq<byte>>, gaps: seq<nat>, sp: byte, r: int, c: nat, q: nat,
                  word: seq<byte>)
    requires Placing(s, placed, gaps, sp, r, c, q) && c > 0 && word != [] && s != []
    ensures var gap := (r + c / 2) / c;
            gap >= 0 && Placing(s + Spaces(gap, sp) + word, placed + [word], gaps + [gap as nat], sp, r - gap, c - 1, q)
  {
    hide Stretched, Rounded, Sum, Nearest;
    var gap := (r + c / 2) / c;
    FairStep(r, c, q);
    FairIsNatural(r, c, q);
    RoundingIsNearest(r, c);
    SumLast(gaps, gap);
    RoundedNext(gaps, r + Sum(gaps), c + |gaps|, gap);
    StretchedLast(placed, gaps, sp, gap, word);
  }

  lemma FairIsNatural(r: int, c: nat, q: nat)
    requires c > 0 && Fair(r, c, q)
    ensures r >= 0
  {
  }

  /** The stretching loop of bJustifyMargin. */
  method Stretch(b: BString, sl: seq<seq<byte>>, width: int, sp: byte, l0: nat, c0: nat, ghost w: seq<seq<byte>>)
    returns (ghost gaps: seq<nat>, ghost q: nat)
    requires b.Valid() && w == NonEmpty(sl) && c0 == |w| >= 2 && l0 == Total(w) && l0 + c0 < width
    modifies b, b.data
    ensures b.Valid() && |gaps| == |w| - 1 && b.Contents() == Stretched(w, gaps, sp)
    ensures Total(w) + Sum(gaps) == width && q >= 1 && Even(gaps, q)
    ensures Rounded(gaps, width - l0, |gaps|)
  {
    q := (width - l0) / (c0 - 1);
    QuotientPositive(width - l0, c0 - 1);
    FairStart(width - l0, c0 - 1);
    b.Truncate(0);
    assert Placing(b.Contents(), [], [], sp, width - l0, c0, q);
    gaps := StretchLoop(b, sl, width, sp, l0, c0, q);
  }

  method StretchLoop(b: BString, sl: seq<seq<byte>>, width: int, sp: byte, l0: nat, c0: nat, ghost q: nat)
    returns (ghost gaps: seq<nat>)
    requires b.Valid() && c0 == |NonEmpty(sl)| > 0 && Placing(b.Contents(), [], [], sp, width - l0, c0, q)
    modifies b, b.data
    ensures b.Valid() && |gaps| == c0 - 1 && b.Contents() == Stretched(NonEmpty(sl), gaps, sp)
    ensures l0 + Sum(gaps) == width && Even(gaps, q) && Rounded(gaps, width - l0, |gaps|)
  {
    hide Placing, Fair, Stretched, NonEmpty, Sum, Even, Rounded;
    var l: int, c: nat, i := l0, c0, 0;
    gaps := [];
    ghost var placed: seq<seq<byte>> := [];
    SumNothing(sl);
    while i < |sl| && c > 0
      invariant b.Valid() && (b.data == old(b.data) || fresh(b.data)) && 0 <= i <= |sl|
      invariant placed == NonEmpty(sl[..i]) && c + |placed| == c0
      invariant Placing(b.Contents(), placed, gaps, sp, width - l, c, q) && l == l0 + Sum(gaps)
    {
      NextEntry(sl, i);
      if |sl[i]| > 0 {
        gaps, l := PlaceWord(b, width, sp, l, c, sl[i], placed, gaps, q);
        c := c - 1;
        placed := placed + [sl[i]];
      }
      i := i + 1;
    }
    AllEntries(sl, i);
    AllPlaced(b.Contents(), placed, gaps, sp, width - l, q);
  }

  lemma NextEntry(sl: seq<seq<byte>>, i: nat)
    requires i < |sl|
    ensures NonEmpty(sl[..i + 1]) == if |sl[i]| > 0 then NonEmpty(sl[..i]) + [sl[i]] else NonEmpty(sl[..i])
  {
    assert sl[..i + 1] == sl[..i] + [sl[i]];
    NonEmptyLast(sl[..i], sl[i]);
  }

  lemma AllEntries(sl: seq<seq<byte>>, i: nat)
    requires i <= |sl| && (i == |sl| || |NonEmpty(sl[..i])| == |NonEmpty(sl)|)
    ensures NonEmpty(sl[..i]) == NonEmpty(sl)
  {
    assert sl[..|sl|] == sl;
    NonEmptyPrefix(sl, i);
  }

  lemma SumNothing(sl: seq<seq<byte>>)
    ensures Sum([]) == 0 && NonEmpty(sl[..0]) == []
  {
  }

  lemma AllPlaced(s: seq<byte>, placed: seq<seq<byte>>, gaps: seq<nat>, sp: byte, r: int, q: nat)
    requires Placing(s, placed, gaps, sp, r, 0, q) && placed != []
    ensures |gaps| == |placed| - 1 && s == Stretched(placed, gaps, sp) && r == 0 && Even(gaps, q)
    ensures Rounded(gaps, Sum(gaps), |gaps|)
  {
  }

  /** One word of the stretching loop: unless it is the first, a gap rounded against what is left
      of the width goes before it. */
  method PlaceWord(b: BString, width: int, sp: byte, l: int, c: nat, word: seq<byte>,
                   ghost placed: seq<seq<byte>>, ghost gaps: seq<nat>, ghost q: nat)
    returns (ghost gaps': seq<nat>, l': int)
    requires b.Valid() && word != [] && c > 0 && Placing(b.Contents(), placed, gaps, sp, width - l, c, q)
    modifies b, b.data
    ensures b.Valid() && (b.data == old(b.data) || fresh(b.data))
    ensures Placing(b.Contents(), placed + [word], gaps', sp, width - l', c - 1, q)
    ensures l' - Sum(gaps') == l - Sum(gaps)
  {
    hide Placing, Stretched;
    gaps', l' := gaps, l;
    ghost var s0 := b.Contents();
    if b.slen > 0 {
      var s := (width - l + c / 2) / c;
      PlaceNext(s0, placed, gaps, sp, width - l, c, q, word);
      SumLast(gaps, s);
      b.AppendChars(s, sp);
      assert b.Contents() == s0 + Spaces(s, sp);
      l' := l + s;
      gaps' := gaps + [s];
      b.Concat(word);
    } else {
      StartsEmpty(s0, placed, gaps, sp, width - l, c, q);
      PlaceFirst(gaps, sp, width - l, c, q, word);
      hide Placing, Stretched;
      b.Concat(word);
      assert [] + word == word && [] + [word] == [word];
    }
  }

  lemma StartsEmpty(s: seq<byte>, placed: seq<seq<byte>>, gaps: seq<nat>, sp: byte, r: int, c: nat, q: nat)
    requires Placing(s, placed, gaps, sp, r, c, q) && |s| == 0
    ensures s == [] && placed == []
  {
  }

  lemma QuotientPositive(r: int, c: int)
    requires 0 < c < r
    ensures r / c >= 1
  {
  }
}
