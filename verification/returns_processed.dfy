/**
 The "election returns processed" field of the results feed has the form
 "count/total". gmaFetch (main.go) splits it on '/' with Go's strings.Split and
 reads only the first two fields. It parses the first field before it reads
 the second: a first field that is not a number ends gmaFetch with that parse
 error, and otherwise a string with no '/' has no second field, so reading it
 is an index out of range, which panics.

 Split is Go's strings.Split for the one-character separator '/', Join its
 inverse; ProcessedFields is the selection of the first two fields, with None
 where there is no second field, whichever of the two failures gmaFetch then
 reports.
 */
module ReturnsProcessed {

  datatype Option<+T> = None | Some(value: T)

  const Separator: char := '/'

  /**
   strings.Split(s, "/"): the maximal runs between separators, in order. There
   is always at least one field, even for the empty string.
   */
  function Split(s: string): (fields: seq<string>)
    ensures |fields| >= 1
  {
    if s == [] then [[]]
    else
      var rest := Split(s[1..]);
      if s[0] == Separator then [[]] + rest
      else [[s[0]] + rest[0]] + rest[1..]
  }

  /** strings.Join(fields, "/"). */
  function Join(fields: seq<string>): string
    requires |fields| >= 1
  {
    if |fields| == 1 then fields[0]
    else fields[0] + [Separator] + Join(fields[1..])
  }

  /** No field that Split returns contains the separator. */
  predicate NoSeparators(fields: seq<string>)
  {
    forall k :: 0 <= k < |fields| ==> Separator !in fields[k]
  }

  /**
   The first two fields of the returns-processed string, as gmaFetch reads
   them; None when there is no second field, which is exactly when the string
   holds no separator. For such a string gmaFetch either returns the parse
   error of the first field or, when the first field is a number, panics on
   the out-of-range index.
   */
  function ProcessedFields(returnsProcessed: string): (r: Option<(string, string)>)
    ensures r.None? <==> Separator !in returnsProcessed
  {
    SplitHasTwoFieldsIff(returnsProcessed);
    var recorded := Split(returnsProcessed);
    if |recorded| < 2 then None else Some((recorded[0], recorded[1]))
  }

  /** Joining the fields of a split gives back the original string. */
  lemma {:induction false} JoinSplit(s: string)
    ensures Join(Split(s)) == s
  {
    if s != [] {
      var rest := Split(s[1..]);
      JoinSplit(s[1..]);
      if s[0] == Separator {
        assert Split(s)[1..] == rest;
      } else {
        var fields := Split(s);
        if |rest| == 1 {
          assert fields == [[s[0]] + rest[0]];
        } else {
          assert fields[1..] == rest[1..];
          assert Join(rest) == rest[0] + [Separator] + Join(rest[1..]);
        }
      }
    }
  }

  /** Split never returns a field containing the separator. */
  lemma {:induction false} SplitHasNoSeparators(s: string)
    ensures NoSeparators(Split(s))
  {
    if s != [] {
      SplitHasNoSeparators(s[1..]);
      var rest := Split(s[1..]);
      if s[0] != Separator {
        assert Split(s)[1..] == rest[1..];
        assert Split(s)[0] == [s[0]] + rest[0];
      }
    }
  }

  /** A string without separator is one field. */
  lemma {:induction false} SplitWithoutSeparator(s: string)
    requires Separator !in s
    ensures Split(s) == [s]
  {
    if s != [] {
      assert Separator !in s[1..];
      SplitWithoutSeparator(s[1..]);
      assert [s[0]] + s[1..] == s;
    }
  }

  /** A separator-free prefix followed by a separator is split off as one field. */
  lemma {:induction false} SplitAfterField(a: string, t: string)
    requires Separator !in a
    ensures Split(a + [Separator] + t) == [a] + Split(t)
  {
    if a == [] {
      assert a + [Separator] + t == [Separator] + t;
      assert ([Separator] + t)[1..] == t;
    } else {
      var s := a + [Separator] + t;
      assert s[1..] == a[1..] + [Separator] + t;
      assert Separator !in a[1..];
      SplitAfterField(a[1..], t);
      assert [a[0]] + a[1..] == a;
    }
  }

  /** Splitting a join of separator-free fields gives back the fields. */
  lemma {:induction false} SplitJoin(fields: seq<string>)
    requires |fields| >= 1 && NoSeparators(fields)
    ensures Split(Join(fields)) == fields
  {
    if |fields| == 1 {
      SplitWithoutSeparator(fields[0]);
    } else {
      assert NoSeparators(fields[1..]) by {
        forall k | 0 <= k < |fields[1..]| ensures Separator !in fields[1..][k] {
          assert fields[1..][k] == fields[k + 1];
        }
      }
      SplitJoin(fields[1..]);
      assert Separator !in fields[0];
      SplitAfterField(fields[0], Join(fields[1..]));
    }
  }

  /** There are at least two fields exactly when the string holds a separator. */
  lemma {:induction false} SplitHasTwoFieldsIff(s: string)
    ensures |Split(s)| >= 2 <==> Separator in s
  {
    if Separator in s {
      SplitHasNoSeparators(s);
      JoinSplit(s);
    } else {
      SplitWithoutSeparator(s);
    }
  }

  /**
   When there is a second field, the two fields are the text before the first
   separator and the text up to the next separator or the end; the rest of
   the string is ignored.
   */
  lemma ProcessedFieldsSound(s: string)
    requires ProcessedFields(s).Some?
    ensures var (count, total) := ProcessedFields(s).value;
            var n := |count| + 1 + |total|;
            && Separator !in count && Separator !in total
            && n <= |s| && s[..n] == count + [Separator] + total
            && (n == |s| || s[n] == Separator)
  {
    var fields := Split(s);
    SplitHasNoSeparators(s);
    JoinSplit(s);
    assert Separator !in fields[0] && Separator !in fields[1];
    assert s == fields[0] + [Separator] + Join(fields[1..]);
    var tail := fields[1..];
    if |tail| == 1 {
      assert Join(tail) == fields[1];
    } else {
      assert Join(tail) == fields[1] + [Separator] + Join(tail[1..]);
    }
  }

  /**
   Conversely, "count/total" followed by nothing or by further '/'-separated
   fields yields exactly count and total.
   */
  lemma ProcessedFieldsComplete(count: string, total: string, rest: string)
    requires Separator !in count && Separator !in total
    requires rest == [] || rest[0] == Separator
    ensures ProcessedFields(count + [Separator] + total + rest) == Some((count, total))
  {
    var s := count + [Separator] + total + rest;
    assert s == count + [Separator] + (total + rest);
    SplitAfterField(count, total + rest);
    if rest == [] {
      assert total + rest == total;
      SplitWithoutSeparator(total);
    } else {
      assert total + rest == total + [Separator] + rest[1..];
      SplitAfterField(total, rest[1..]);
    }
  }
}
