/**
 The ANSI colour codes the listing emits, and what a terminal shows of
 a coloured string: the text with every escape sequence removed.
 */
module Ansi {

  /** The escape character that starts every ANSI colour code. */
  const Esc: char := '\U{1B}'

  /** Bold bright blue, for directories. */
  const ColorBlue: string := [Esc] + "[1;38;5;12m"

  /** Bold bright cyan, for symbolic links. */
  const ColorCyan: string := [Esc] + "[1;38;5;14m"

  /** Back to the terminal's default attributes. */
  const AnsiReset: string := [Esc] + "[0m"

  /** Text that holds no escape sequence. */
  predicate Plain(s: string) {
    Esc !in s
  }

  /** The rest of a string after the `m` that ends an escape sequence; nothing when it never ends. */
  function SkipEscape(s: string): (r: string)
    ensures |r| <= |s|
  {
    if |s| == 0 then []
    else if s[0] == 'm' then s[1..]
    else SkipEscape(s[1..])
  }

  /** What a terminal displays of `s`: every `ESC ... m` sequence removed. */
  function Visible(s: string): string
    decreases |s|
  {
    if |s| == 0 then []
    else if s[0] == Esc then Visible(SkipEscape(s[1..]))
    else [s[0]] + Visible(s[1..])
  }

  /** Plain text is displayed as it is. */
  lemma {:induction false} VisiblePlain(s: string)
    requires Plain(s)
    ensures Visible(s) == s
    decreases |s|
  {
    if |s| > 0 {
      assert Plain(s[1..]) by {
        assert forall c :: c in s[1..] ==> c in s;
      }
      VisiblePlain(s[1..]);
    }
  }

  /** A plain prefix is displayed unchanged in front of whatever follows. */
  lemma {:induction false} VisibleAppendPlain(a: string, b: string)
    requires Plain(a)
    ensures Visible(a + b) == a + Visible(b)
    decreases |a|
  {
    if |a| > 0 {
      assert (a + b)[1..] == a[1..] + b;
      assert Plain(a[1..]) by {
        assert forall c :: c in a[1..] ==> c in a;
      }
      VisibleAppendPlain(a[1..], b);
      assert (a + b)[0] == a[0] && a[0] != Esc;
      assert Visible(a + b) == [a[0]] + Visible(a[1..] + b);
      assert a + Visible(b) == [a[0]] + (a[1..] + Visible(b));
    } else {
      assert a + b == b;
    }
  }

  lemma {:induction false} SkipEscapeBody(x: string, b: string)
    requires 'm' !in x
    ensures SkipEscape(x + ['m'] + b) == b
    decreases |x|
  {
    if |x| > 0 {
      assert (x + ['m'] + b)[1..] == x[1..] + ['m'] + b;
      assert 'm' !in x[1..] by {
        assert forall c :: c in x[1..] ==> c in x;
      }
      SkipEscapeBody(x[1..], b);
    }
  }

  /** A complete escape sequence `ESC body m` displays as nothing. */
  lemma VisibleDropsSequence(body: string, b: string)
    requires 'm' !in body
    ensures Visible([Esc] + body + ['m'] + b) == Visible(b)
  {
    assert ([Esc] + body + ['m'] + b)[1..] == body + ['m'] + b;
    SkipEscapeBody(body, b);
  }

  /** Each of the three colour codes displays as nothing. */
  lemma VisibleDropsColor(code: string, b: string)
    requires code == ColorBlue || code == ColorCyan || code == AnsiReset
    ensures Visible(code + b) == Visible(b)
  {
    if code == ColorBlue {
      assert ColorBlue == [Esc] + "[1;38;5;12" + ['m'];
      VisibleDropsSequence("[1;38;5;12", b);
    } else if code == ColorCyan {
      assert ColorCyan == [Esc] + "[1;38;5;14" + ['m'];
      VisibleDropsSequence("[1;38;5;14", b);
    } else {
      assert AnsiReset == [Esc] + "[0" + ['m'];
      VisibleDropsSequence("[0", b);
    }
  }
}
