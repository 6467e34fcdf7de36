/** Per-tick arithmetic of the study countdown in run_pomodoro (pomo.py):
    the mm:ss split of the remaining seconds and the bracketed progress bar. */
module Progress {

  /** Number of cells between the brackets of the progress bar. */
  const BarWidth: int := 20

  /** divmod(seconds, 60): whole minutes and the leftover seconds shown as mm:ss.
      For the positive divisor 60, Dafny's Euclidean / and % agree with Python's
      floor division for every integer. */
  function SplitTime(seconds: int): (r: (int, int))
    ensures r.0 * 60 + r.1 == seconds
    ensures 0 <= r.1 < 60
    ensures seconds >= 0 ==> r.0 >= 0
  {
    (seconds / 60, seconds % 60)
  }

  /** The number of filled cells when `seconds` of `total` remain: the elapsed
      fraction (total - seconds) / total scaled to BarWidth, rounded down
      (FilledWidthFloor). The caller's loop guard (seconds > 0) and
      seconds <= total make the divisor positive. */
  function FilledWidth(total: int, seconds: int): (w: int)
    requires 0 < seconds <= total
    ensures 0 <= w < BarWidth
    ensures seconds == total ==> w == 0
  {
    FilledWidthFloor(total, seconds);
    (total - seconds) * BarWidth / total
  }

  /** The filled width is the largest w with w / BarWidth <= elapsed / total. */
  lemma FilledWidthFloor(total: int, seconds: int)
    requires 0 < seconds <= total
    ensures var w := (total - seconds) * BarWidth / total;
      && w * total <= (total - seconds) * BarWidth < (w + 1) * total
      && 0 <= w < BarWidth
  {
    var elapsed := (total - seconds) * BarWidth;
    var w := elapsed / total;
    assert w * total <= elapsed < w * total + total;
    assert (w + 1) * total == w * total + total;
  }

  /** Multiplying by a positive number keeps the order. */
  lemma MulLeft(a: int, b: int, c: int)
    requires a <= b && 0 < c
    ensures a * c <= b * c
  {
    assert b * c - a * c == (b - a) * c;
  }

  /** The bar never empties while time runs down: fewer seconds left means at
      least as many filled cells. */
  lemma FilledWidthMonotone(total: int, earlier: int, later: int)
    requires 0 < later <= earlier <= total
    ensures FilledWidth(total, earlier) <= FilledWidth(total, later)
  {
    var a, b := FilledWidth(total, earlier), FilledWidth(total, later);
    FilledWidthFloor(total, earlier);
    FilledWidthFloor(total, later);
    assert (total - earlier) * BarWidth <= (total - later) * BarWidth;
    if a > b {
      MulLeft(b + 1, a, total);
      assert false;
    }
  }

  /** Python's `n * c` for a one-character string c: n copies, none when n <= 0. */
  function Repeat(c: char, n: int): (s: string)
    ensures |s| == if n > 0 then n else 0
    ensures forall k :: 0 <= k < |s| ==> s[k] == c
    decreases n
  {
    if n <= 0 then [] else [c] + Repeat(c, n - 1)
  }

  /** "[" + filled * "#" + (BarWidth - filled) * " " + "]". */
  function Bar(filled: int): (bar: string)
    ensures 0 <= filled <= BarWidth ==>
      && |bar| == BarWidth + 2
      && bar[0] == '[' && bar[BarWidth + 1] == ']'
      && forall k :: 1 <= k <= BarWidth ==> bar[k] == if k <= filled then '#' else ' '
  {
    var bar := "[" + Repeat('#', filled) + Repeat(' ', BarWidth - filled) + "]";
    assert 0 <= filled <= BarWidth ==> forall k :: 1 <= k <= filled ==> bar[k] == Repeat('#', filled)[k - 1];
    bar
  }

  /** A filled cell of the bar. */
  predicate FilledCell(c: char)
  {
    c == '#'
  }

  /** Number of elements of s that satisfy p. */
  function Count<T>(p: T -> bool, s: seq<T>): (n: nat)
    ensures n <= |s|
  {
    if s == [] then 0 else (if p(s[0]) then 1 else 0) + Count(p, s[1..])
  }

  lemma {:induction false} CountConcat<T>(p: T -> bool, s: seq<T>, t: seq<T>)
    ensures Count(p, s + t) == Count(p, s) + Count(p, t)
  {
    if s != [] {
      CountConcat(p, s[1..], t);
      assert (s + t)[0] == s[0] && (s + t)[1..] == s[1..] + t;
    } else {
      assert s + t == t;
    }
  }

  lemma {:induction false} CountRepeat(p: char -> bool, d: char, n: int)
    ensures Count(p, Repeat(d, n)) == if p(d) && n > 0 then n else 0
    decreases n
  {
    if n > 0 {
      assert Repeat(d, n)[1..] == Repeat(d, n - 1);
      CountRepeat(p, d, n - 1);
    }
  }

  /** Reading the number of '#' cells back off a rendered bar gives the filled
      width that produced it. */
  lemma FilledOfBar(filled: int)
    requires 0 <= filled <= BarWidth
    ensures Count(FilledCell, Bar(filled)) == filled
  {
    var hashes, spaces := Repeat('#', filled), Repeat(' ', BarWidth - filled);
    CountConcat(FilledCell, "[" + hashes, spaces + "]");
    CountConcat(FilledCell, "[", hashes);
    CountConcat(FilledCell, spaces, "]");
    CountRepeat(FilledCell, '#', filled);
    CountRepeat(FilledCell, ' ', BarWidth - filled);
    assert Bar(filled) == ("[" + hashes) + (spaces + "]");
  }

  /** Every cell filled in a narrower bar is filled in a wider one. */
  lemma BarMonotone(narrow: int, wide: int)
    requires 0 <= narrow <= wide <= BarWidth
    ensures forall k :: 0 <= k < BarWidth + 2 && Bar(narrow)[k] == '#' ==> Bar(wide)[k] == '#'
  {
  }
}
