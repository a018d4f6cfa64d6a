/** Splitting a sequence at a separator, and joining the fields again. */
module Fields {

  function Split<T(==)>(s: seq<T>, sep: T): (fields: seq<seq<T>>)
    ensures |fields| >= 1
  {
    if s == [] then [[]]
    else if s[0] == sep then [[]] + Split(s[1..], sep)
    else
      var rest := Split(s[1..], sep);
      [[s[0]] + rest[0]] + rest[1..]
  }

  function Join<T>(fields: seq<seq<T>>, sep: T): seq<T>
    requires |fields| >= 1
  {
    if |fields| == 1 then fields[0] else fields[0] + [sep] + Join(fields[1..], sep)
  }

  function Occurrences<T(==)>(s: seq<T>, x: T): nat {
    if s == [] then 0 else (if s[0] == x then 1 else 0) + Occurrences(s[1..], x)
  }

  ghost predicate SeparatorFree<T>(fields: seq<seq<T>>, sep: T) {
    forall f :: f in fields ==> sep !in f
  }

  lemma Regroup<T>(a: seq<T>, b: seq<T>, c: seq<T>)
    ensures a + b + c == a + (b + c)
  {
  }

  lemma {:induction false} JoinInvertsSplit<T>(s: seq<T>, sep: T)
    ensures Join(Split(s, sep), sep) == s
  {
    if s != [] {
      JoinInvertsSplit(s[1..], sep);
      assert s == [s[0]] + s[1..];
      var rest := Split(s[1..], sep);
      if s[0] == sep {
        assert Split(s, sep)[1..] == rest;
      } else {
        assert Split(s, sep)[1..] == rest[1..];
        if |rest| > 1 {
          assert ([s[0]] + rest[0]) + [sep] + Join(rest[1..], sep)
              == [s[0]] + (rest[0] + [sep] + Join(rest[1..], sep));
        }
      }
    }
  }

  lemma {:induction false} SplitOfFree<T>(f: seq<T>, sep: T)
    requires sep !in f
    ensures Split(f, sep) == [f]
  {
    if f != [] {
      SplitOfFree(f[1..], sep);
      assert f == [f[0]] + f[1..];
    }
  }

  lemma SplitFirst<T>(x: T, s: seq<T>, sep: T)
    ensures var rest := Split(s, sep);
            Split([x] + s, sep) == if x == sep then [[]] + rest else [[x] + rest[0]] + rest[1..]
  {
    assert ([x] + s)[1..] == s;
  }

  lemma PrependToFirst<T>(x: T, left: seq<seq<T>>, right: seq<seq<T>>)
    requires left != []
    ensures [[x] + (left + right)[0]] + (left + right)[1..] == ([[x] + left[0]] + left[1..]) + right
    ensures [[]] + (left + right) == ([[]] + left) + right
  {
    assert (left + right)[1..] == left[1..] + right;
  }

  lemma {:induction false} SplitConcat<T>(a: seq<T>, b: seq<T>, sep: T)
    ensures Split(a + [sep] + b, sep) == Split(a, sep) + Split(b, sep)
  {
    if a == [] {
      SplitFirst(sep, b, sep);
      assert a + [sep] + b == [sep] + b;
    } else {
      var tail := a[1..] + [sep] + b;
      SplitConcat(a[1..], b, sep);
      SplitFirst(a[0], tail, sep);
      SplitFirst(a[0], a[1..], sep);
      assert a + [sep] + b == [a[0]] + tail && a == [a[0]] + a[1..];
      PrependToFirst(a[0], Split(a[1..], sep), Split(b, sep));
    }
  }

  lemma {:induction false} SplitInvertsJoin<T>(fields: seq<seq<T>>, sep: T)
    requires |fields| >= 1 && SeparatorFree(fields, sep)
    ensures Split(Join(fields, sep), sep) == fields
  {
    assert fields[0] in fields;
    SplitOfFree(fields[0], sep);
    if |fields| == 1 {
      assert fields == [fields[0]];
    } else {
      assert SeparatorFree(fields[1..], sep);
      SplitInvertsJoin(fields[1..], sep);
      SplitConcat(fields[0], Join(fields[1..], sep), sep);
      assert fields == [fields[0]] + fields[1..];
    }
  }

  lemma {:induction false} JoinSnoc<T>(fields: seq<seq<T>>, last: seq<T>, sep: T)
    requires |fields| >= 1
    ensures Join(fields + [last], sep) == Join(fields, sep) + [sep] + last
  {
    assert (fields + [last])[1..] == fields[1..] + [last];
    if |fields| > 1 {
      JoinSnoc(fields[1..], last, sep);
      assert fields[0] + [sep] + (Join(fields[1..], sep) + [sep] + last)
          == fields[0] + [sep] + Join(fields[1..], sep) + [sep] + last;
    }
  }

  lemma {:induction false} OccurrencesConcat<T>(a: seq<T>, b: seq<T>, x: T)
    ensures Occurrences(a + b, x) == Occurrences(a, x) + Occurrences(b, x)
  {
    if a == [] {
      assert a + b == b;
    } else {
      OccurrencesConcat(a[1..], b, x);
      assert (a + b)[1..] == a[1..] + b;
    }
  }

  lemma {:induction false} NoOccurrences<T>(s: seq<T>, x: T)
    requires x !in s
    ensures Occurrences(s, x) == 0
  {
    if s != [] {
      NoOccurrences(s[1..], x);
    }
  }

  /** A joined text holds exactly one separator between every two fields. */
  lemma {:induction false} SeparatorsInJoin<T>(fields: seq<seq<T>>, sep: T)
    requires |fields| >= 1 && SeparatorFree(fields, sep)
    ensures Occurrences(Join(fields, sep), sep) == |fields| - 1
  {
    assert fields[0] in fields;
    NoOccurrences(fields[0], sep);
    if |fields| > 1 {
      var rest := Join(fields[1..], sep);
      SeparatorsInJoin(fields[1..], sep);
      OccurrencesConcat(fields[0] + [sep], rest, sep);
      OccurrencesConcat(fields[0], [sep], sep);
    }
  }
}
