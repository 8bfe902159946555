/**
  A nullable TEXT cell as read back through the database driver (`None` or a
  Python `str`), with Python's ordering on strings: code point by code point,
  a proper prefix first.
 */
module SqlText {
  import opened Wrappers

  type Text = Option<string>

  predicate StrLess(a: string, b: string)
    decreases |a|
  {
    if |a| == 0 then |b| > 0
    else if |b| == 0 then false
    else if a[0] != b[0] then a[0] < b[0]
    else StrLess(a[1..], b[1..])
  }

  /** A total order on cells; null sorts first (the histogram keeps nulls apart from strings anyway). */
  predicate TextLess(a: Text, b: Text)
  {
    match a
    case None => b.Some?
    case Some(x) => b.Some? && StrLess(x, b.value)
  }

  lemma {:induction false} StrLessIrreflexive(a: string)
    ensures !StrLess(a, a)
    decreases |a|
  {
    if |a| > 0 {
      StrLessIrreflexive(a[1..]);
    }
  }

  lemma {:induction false} StrLessTransitive(a: string, b: string, c: string)
    requires StrLess(a, b) && StrLess(b, c)
    ensures StrLess(a, c)
    decreases |a|
  {
    if |a| > 0 && a[0] == b[0] && b[0] == c[0] {
      StrLessTransitive(a[1..], b[1..], c[1..]);
    }
  }

  lemma {:induction false} StrLessTotal(a: string, b: string)
    ensures a == b || StrLess(a, b) || StrLess(b, a)
    decreases |a|
  {
    if |a| > 0 && |b| > 0 && a[0] == b[0] {
      StrLessTotal(a[1..], b[1..]);
      if a[1..] == b[1..] {
        assert a == [a[0]] + a[1..] && b == [b[0]] + b[1..];
      }
    }
  }

  lemma TextLessIrreflexive(a: Text)
    ensures !TextLess(a, a)
  {
    if a.Some? {
      StrLessIrreflexive(a.value);
    }
  }

  lemma TextLessTransitive(a: Text, b: Text, c: Text)
    requires TextLess(a, b) && TextLess(b, c)
    ensures TextLess(a, c)
  {
    if a.Some? {
      StrLessTransitive(a.value, b.value, c.value);
    }
  }

  lemma TextLessTotal(a: Text, b: Text)
    ensures a == b || TextLess(a, b) || TextLess(b, a)
  {
    if a.Some? && b.Some? {
      StrLessTotal(a.value, b.value);
    }
  }
}
