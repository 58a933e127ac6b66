/**
 The string operations the player relies on: lower-casing for case-insensitive
 keys and searches, the character-by-character order of `String.compareTo`
 used to sort by title, substring search, joining and character removal.
 */
module Text {

  /** Lower-cases an ASCII capital letter; every other character is kept. */
  function LowerChar(c: char): (r: char)
    ensures 'A' <= c <= 'Z' ==> 'a' <= r <= 'z' && r as int == c as int + 32
    ensures !('A' <= c <= 'Z') ==> r == c
  {
    if 'A' <= c <= 'Z' then (c as int + 32) as char else c
  }

  /** The lower-cased copy of `s`, position by position. */
  function Lower(s: string): (r: string)
    ensures |r| == |s|
    ensures forall i :: 0 <= i < |s| ==> r[i] == LowerChar(s[i])
  {
    if |s| == 0 then "" else [LowerChar(s[0])] + Lower(s[1..])
  }

  /** Lower-casing twice is the same as lower-casing once. */
  lemma LowerIdempotent(s: string)
    ensures Lower(Lower(s)) == Lower(s)
  {
    var once := Lower(s);
    var twice := Lower(once);
    assert forall i :: 0 <= i < |s| ==> twice[i] == once[i];
  }

  /**
   Java's `String.compareTo`: the difference of the first pair of characters
   that differ, or the difference in length when one string is a prefix of the
   other.
   */
  function CompareTo(a: string, b: string): (r: int)
    ensures a <= b || b <= a ==> r == |a| - |b|
  {
    if |a| == 0 || |b| == 0 then |a| - |b|
    else if a[0] != b[0] then a[0] as int - b[0] as int
    else CompareTo(a[1..], b[1..])
  }

  /** At the first position where the strings differ, `compareTo` is the difference of the two characters. */
  lemma {:induction false} CompareToFirstDifference(a: string, b: string, k: int)
    requires 0 <= k < |a| && k < |b|
    requires a[..k] == b[..k] && a[k] != b[k]
    ensures CompareTo(a, b) == a[k] as int - b[k] as int
    decreases k
  {
    if k > 0 {
      assert a[0] == a[..k][0] && b[0] == b[..k][0];
      assert a[1..][..k - 1] == a[..k][1..];
      assert b[1..][..k - 1] == b[..k][1..];
      CompareToFirstDifference(a[1..], b[1..], k - 1);
    }
  }

  /** `a` sorts no later than `b` under `compareTo`. */
  predicate TitleLe(a: string, b: string) {
    CompareTo(a, b) <= 0
  }

  /** Swapping the arguments of `compareTo` negates the result. */
  lemma {:induction false} CompareToAntisymmetric(a: string, b: string)
    ensures CompareTo(b, a) == -CompareTo(a, b)
    decreases |a|
  {
    if |a| != 0 && |b| != 0 && a[0] == b[0] {
      CompareToAntisymmetric(a[1..], b[1..]);
    }
  }

  /** `compareTo` is zero exactly on equal strings. */
  lemma {:induction false} CompareToZeroIffEqual(a: string, b: string)
    ensures CompareTo(a, b) == 0 <==> a == b
    decreases |a|
  {
    if |a| != 0 && |b| != 0 {
      if a[0] == b[0] {
        CompareToZeroIffEqual(a[1..], b[1..]);
        assert a == [a[0]] + a[1..] && b == [b[0]] + b[1..];
      } else {
        assert a[0] == a[0 as int] && a != b;
      }
    }
  }

  /** Any two titles are comparable. */
  lemma TitleLeTotal(a: string, b: string)
    ensures TitleLe(a, b) || TitleLe(b, a)
  {
    CompareToAntisymmetric(a, b);
  }

  /** The title order is transitive. */
  lemma {:induction false} TitleLeTransitive(a: string, b: string, c: string)
    requires TitleLe(a, b) && TitleLe(b, c)
    ensures TitleLe(a, c)
    decreases |a|
  {
    if |a| != 0 && |b| != 0 && |c| != 0 && a[0] == b[0] && b[0] == c[0] {
      TitleLeTransitive(a[1..], b[1..], c[1..]);
    }
  }

  /** `needle` occurs in `hay` starting at position `i`. */
  predicate OccursAt(hay: string, needle: string, i: int) {
    0 <= i && i + |needle| <= |hay| && hay[i..i + |needle|] == needle
  }

  /**
   `String.contains`: `needle` is a prefix of `hay` or of one of its suffixes.
   The empty string is contained in every string.
   */
  predicate ContainsText(hay: string, needle: string)
    ensures needle <= hay ==> ContainsText(hay, needle)
    ensures ContainsText(hay, needle) ==> |needle| <= |hay|
    decreases |hay|
  {
    needle <= hay || (|hay| > 0 && ContainsText(hay[1..], needle))
  }

  /** `ContainsText` holds exactly when `needle` occurs at some position of `hay`. */
  lemma {:induction false} ContainsTextIffOccurs(hay: string, needle: string)
    ensures ContainsText(hay, needle) <==> exists i :: OccursAt(hay, needle, i)
    decreases |hay|
  {
    if needle <= hay {
      assert OccursAt(hay, needle, 0);
    } else if |hay| > 0 {
      ContainsTextIffOccurs(hay[1..], needle);
      if ContainsText(hay[1..], needle) {
        var i :| OccursAt(hay[1..], needle, i);
        assert hay[i + 1..i + 1 + |needle|] == hay[1..][i..i + |needle|];
        assert OccursAt(hay, needle, i + 1);
      }
      if i :| OccursAt(hay, needle, i) {
        assert i != 0;
        assert hay[1..][i - 1..i - 1 + |needle|] == hay[i..i + |needle|];
        assert OccursAt(hay[1..], needle, i - 1);
      }
    }
  }

  /** The elements of `xs` with `sep` between neighbours. */
  function JoinWith(xs: seq<string>, sep: string): string
  {
    if |xs| == 0 then ""
    else if |xs| == 1 then xs[0]
    else xs[0] + sep + JoinWith(xs[1..], sep)
  }

  /** Java's `List.toString` for a list of strings: `[a, b, c]`. */
  function ListText(xs: seq<string>): string
  {
    "[" + JoinWith(xs, ", ") + "]"
  }

  /** `String.replace` of every occurrence of `c` by the empty string. */
  function Strip(s: string, c: char): (r: string)
    ensures c !in r
    ensures forall x :: x in r <==> x in s && x != c
  {
    if |s| == 0 then ""
    else (if s[0] == c then "" else [s[0]]) + Strip(s[1..], c)
  }

  /** Removing a character distributes over concatenation. */
  lemma {:induction false} StripAppend(a: string, b: string, c: char)
    ensures Strip(a + b, c) == Strip(a, c) + Strip(b, c)
    decreases |a|
  {
    if |a| != 0 {
      assert (a + b)[1..] == a[1..] + b;
      StripAppend(a[1..], b, c);
    } else {
      assert a + b == b;
    }
  }

  /** Every element of `xs` with `c` removed. */
  function StripEach(xs: seq<string>, c: char): (r: seq<string>)
    ensures |r| == |xs|
    ensures forall i :: 0 <= i < |xs| ==> r[i] == Strip(xs[i], c)
  {
    if |xs| == 0 then [] else [Strip(xs[0], c)] + StripEach(xs[1..], c)
  }

  /** Removing commas from a ", "-joined list leaves the comma-free parts joined by single spaces. */
  lemma {:induction false} StripCommaJoin(xs: seq<string>)
    ensures Strip(JoinWith(xs, ", "), ',') == JoinWith(StripEach(xs, ','), " ")
    decreases |xs|
  {
    if |xs| > 1 {
      var rest := JoinWith(xs[1..], ", ");
      calc {
        Strip(JoinWith(xs, ", "), ',');
        { assert xs[0] + ", " + rest == xs[0] + (", " + rest); }
        Strip(xs[0] + (", " + rest), ',');
        { StripAppend(xs[0], ", " + rest, ','); }
        Strip(xs[0], ',') + Strip(", " + rest, ',');
        { StripAppend(", ", rest, ','); }
        Strip(xs[0], ',') + (Strip(", ", ',') + Strip(rest, ','));
        { StripCommaJoin(xs[1..]); assert StripEach(xs, ',')[1..] == StripEach(xs[1..], ','); }
        Strip(xs[0], ',') + " " + JoinWith(StripEach(xs, ',')[1..], " ");
      }
    }
  }

  /**
   Java's `list.toString().replace(",", "")`: the tags inside brackets,
   separated by single spaces, with any comma in a tag removed as well.
   */
  lemma TagListText(xs: seq<string>)
    ensures Strip(ListText(xs), ',') == "[" + JoinWith(StripEach(xs, ','), " ") + "]"
  {
    var joined := JoinWith(xs, ", ");
    assert ListText(xs) == "[" + (joined + "]");
    StripAppend("[", joined + "]", ',');
    StripAppend(joined, "]", ',');
    assert Strip("[", ',') == "[" && Strip("]", ',') == "]";
    StripCommaJoin(xs);
  }
}
