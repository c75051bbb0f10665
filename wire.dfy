/** The wire format of the codec: integers written in decimal and joined by
    commas (`",".join(map(str, output))`), and the reader of `decrypt`
    (`[int(x.strip()) for x in s.split(',') if x.strip()]`). */
module Wire {
  import opened Options
  import Decimal

  const Separator: char := ','

  /** The characters Python's `str.strip()` removes, restricted to ASCII. */
  predicate IsSpace(c: char) {
    // space, then tab, line feed, vertical tab, form feed, carriage return,
    // then the four information separators 0x1C..0x1F
    c == ' ' || 9 <= c as int <= 13 || 28 <= c as int <= 31
  }

  function TrimLeft(s: string): string
  {
    if s != [] && IsSpace(s[0]) then TrimLeft(s[1..]) else s
  }

  function TrimRight(s: string): string
  {
    if s != [] && IsSpace(s[|s| - 1]) then TrimRight(s[..|s| - 1]) else s
  }

  /** `s.strip()`: leading and trailing whitespace removed. */
  function Strip(s: string): string
  {
    TrimRight(TrimLeft(s))
  }

  /** `s.split(sep)`: the fields between separators, always at least one,
      possibly empty. */
  function Split(s: string, sep: char): (r: seq<string>)
    ensures |r| > 0
  {
    if s == [] then [[]]
    else
      var rest := Split(s[1..], sep);
      if s[0] == sep then [[]] + rest
      else [[s[0]] + rest[0]] + rest[1..]
  }

  /** `sep.join(fields)`. */
  function Join(fields: seq<string>, sep: char): string
  {
    if fields == [] then []
    else if |fields| == 1 then fields[0]
    else fields[0] + [sep] + Join(fields[1..], sep)
  }

  /** `map(str, xs)`. */
  function ShowAll(xs: seq<int>): seq<string>
  {
    seq(|xs|, i requires 0 <= i < |xs| => Decimal.Show(xs[i]))
  }

  /** The text `encrypt` returns for its integer list. */
  function Serialize(xs: seq<int>): string
  {
    Join(ShowAll(xs), Separator)
  }

  /** The comprehension of `decrypt`: each non-blank stripped field parsed as
      an integer; `None` when some non-blank field is not an integer (the
      ValueError the source turns into its invalid-format result). */
  function ParseAll(fields: seq<string>): (r: Option<seq<int>>)
    ensures r.Some? ==> |r.value| <= |fields|
  {
    if fields == [] then Some([])
    else
      var f := Strip(fields[0]);
      var rest := ParseAll(fields[1..]);
      if f == [] then rest
      else match Decimal.ParseInt(f)
        case None => None
        case Some(v) => if rest.None? then None else Some([v] + rest.value)
  }

  function ParseFields(s: string): Option<seq<int>>
  {
    ParseAll(Split(s, Separator))
  }

  // ---- lemmas ----------------------------------------------------------

  /** Splitting a separator-free prefix glues it onto the first field. */
  lemma {:induction false} SplitPrefix(a: string, t: string, sep: char)
    requires sep !in a
    ensures Split(a + t, sep) == [a + Split(t, sep)[0]] + Split(t, sep)[1..]
  {
    if a != [] {
      assert (a + t)[1..] == a[1..] + t;
      SplitPrefix(a[1..], t, sep);
      assert [a[0]] + (a[1..] + Split(t, sep)[0]) == a + Split(t, sep)[0];
    } else {
      assert a + t == t;
      assert a + Split(t, sep)[0] == Split(t, sep)[0];
      assert Split(t, sep) == [Split(t, sep)[0]] + Split(t, sep)[1..];
    }
  }

  /** Splitting undoes joining when no field holds the separator. */
  lemma {:induction false} SplitJoin(fields: seq<string>, sep: char)
    requires |fields| > 0
    requires forall i :: 0 <= i < |fields| ==> sep !in fields[i]
    ensures Split(Join(fields, sep), sep) == fields
  {
    if |fields| == 1 {
      SplitPrefix(fields[0], [], sep);
      assert fields[0] + [] == fields[0];
    } else {
      var rest := Join(fields[1..], sep);
      SplitJoin(fields[1..], sep);
      assert fields[0] + [sep] + rest == fields[0] + ([sep] + rest);
      SplitPrefix(fields[0], [sep] + rest, sep);
      assert ([sep] + rest)[1..] == rest;
      assert fields[0] + [] == fields[0];
      assert fields == [fields[0]] + fields[1..];
    }
  }

  /** Text with no whitespace at either end is left alone by `strip`. */
  lemma StripUntouched(s: string)
    requires s != [] && !IsSpace(s[0]) && !IsSpace(s[|s| - 1])
    ensures Strip(s) == s
  {
    assert TrimLeft(s) == s;
  }

  lemma {:induction false} TrimLeftBlank(s: string)
    requires forall i :: 0 <= i < |s| ==> IsSpace(s[i])
    ensures TrimLeft(s) == []
  {
    if s != [] {
      TrimLeftBlank(s[1..]);
    }
  }

  /** Text made only of whitespace strips to nothing. */
  lemma StripBlank(s: string)
    requires forall i :: 0 <= i < |s| ==> IsSpace(s[i])
    ensures Strip(s) == []
  {
    TrimLeftBlank(s);
  }

  lemma StripShow(n: int)
    ensures Strip(Decimal.Show(n)) == Decimal.Show(n)
  {
    StripUntouched(Decimal.Show(n));
  }

  lemma ParseAllCons(fields: seq<string>, v: int, vs: seq<int>)
    requires fields != [] && Strip(fields[0]) != [] && Decimal.ParseInt(Strip(fields[0])) == Some(v)
    requires ParseAll(fields[1..]) == Some(vs)
    ensures ParseAll(fields) == Some([v] + vs)
  {
  }

  lemma {:induction false} ParseShowAll(xs: seq<int>)
    ensures ParseAll(ShowAll(xs)) == Some(xs)
  {
    if xs != [] {
      var fs := ShowAll(xs);
      assert fs[1..] == ShowAll(xs[1..]);
      StripShow(xs[0]);
      Decimal.ParseShow(xs[0]);
      ParseShowAll(xs[1..]);
      ParseAllCons(fs, xs[0], xs[1..]);
      assert xs == [xs[0]] + xs[1..];
    }
  }

  /** Reading back the serialisation of any integer list gives that list. */
  lemma ParseSerialize(xs: seq<int>)
    ensures ParseFields(Serialize(xs)) == Some(xs)
  {
    if xs == [] {
      assert Serialize(xs) == [];
      assert Split([], Separator) == [[]];
      assert Strip([]) == [];
      assert ParseAll([[]]) == ParseAll([]);
    } else {
      var fs := ShowAll(xs);
      forall i | 0 <= i < |fs| ensures Separator !in fs[i] {
        var s := fs[i];
        assert forall j :: 0 <= j < |s| ==> s[j] != Separator;
      }
      SplitJoin(fs, Separator);
      ParseShowAll(xs);
    }
  }

  predicate IsBlankOrSeparator(c: char) { IsSpace(c) || c == Separator }

  lemma {:induction false} SplitBlank(s: string)
    requires forall i :: 0 <= i < |s| ==> IsBlankOrSeparator(s[i])
    ensures forall k, i :: (0 <= k < |Split(s, Separator)| && 0 <= i < |Split(s, Separator)[k]|
                            ==> IsSpace(Split(s, Separator)[k][i]))
  {
    if s != [] {
      SplitBlank(s[1..]);
      var rest := Split(s[1..], Separator);
      if s[0] != Separator {
        forall i | 0 <= i < |[s[0]] + rest[0]| ensures IsSpace(([s[0]] + rest[0])[i]) {
          if i > 0 { assert ([s[0]] + rest[0])[i] == rest[0][i - 1]; }
        }
      }
    }
  }

  lemma {:induction false} ParseAllBlank(fields: seq<string>)
    requires forall k, i :: 0 <= k < |fields| && 0 <= i < |fields[k]| ==> IsSpace(fields[k][i])
    ensures ParseAll(fields) == Some([])
  {
    if fields != [] {
      assert forall i :: 0 <= i < |fields[0]| ==> IsSpace(fields[0][i]);
      StripBlank(fields[0]);
      ParseAllBlank(fields[1..]);
    }
  }

  /** Text made only of whitespace and commas (the empty text included) parses
      to the empty list: blank fields are dropped, not rejected. */
  lemma ParseBlank(s: string)
    requires forall i :: 0 <= i < |s| ==> IsBlankOrSeparator(s[i])
    ensures ParseFields(s) == Some([])
  {
    SplitBlank(s);
    ParseAllBlank(Split(s, Separator));
  }

  /** One non-blank field that is not an integer makes the whole parse
      fail, wherever it stands: `int()` raises inside the comprehension. */
  lemma {:induction false} ParseAllRejects(fields: seq<string>, i: nat)
    requires i < |fields| && Strip(fields[i]) != []
    requires Decimal.ParseInt(Strip(fields[i])) == None
    ensures ParseAll(fields) == None
  {
    if i > 0 {
      ParseAllRejects(fields[1..], i - 1);
    }
  }
}
