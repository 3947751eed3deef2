/** The order on station names.

    Every comparison of station names in the network compares two strings with
    `<` and `>`, which is lexicographic by character code: the first differing
    character decides, and a proper prefix comes first.

    The program compares the bytes of its strings as unsigned values. Here a
    name is a sequence of Dafny characters, which are code points. The two
    orders agree when names are UTF-8 text, because UTF-8 orders byte
    sequences as it orders code points; names are taken to be such text. */
module Names {

  /** `a` sorts strictly before `b`. */
  predicate Below(a: string, b: string)
    ensures Below(a, b) ==> a != b
    ensures |a| < |b| && a == b[..|a|] ==> Below(a, b)
  {
    if |a| == 0 then |b| > 0
    else if |b| == 0 then false
    else if a[0] != b[0] then a[0] < b[0]
    else Below(a[1..], b[1..])
  }

  /** No name sorts before itself, and two names never sort before each other. */
  lemma {:induction false} BelowStrict(a: string, b: string)
    ensures !Below(a, a)
    ensures !(Below(a, b) && Below(b, a))
  {
    if |a| > 0 && |b| > 0 && a[0] == b[0] {
      BelowStrict(a[1..], b[1..]);
    }
    if |a| > 0 {
      BelowStrict(a[1..], a[1..]);
    }
  }

  lemma {:induction false} BelowTransitive(a: string, b: string, c: string)
    requires Below(a, b) && Below(b, c)
    ensures Below(a, c)
  {
    if |a| > 0 && a[0] == b[0] && b[0] == c[0] {
      BelowTransitive(a[1..], b[1..], c[1..]);
    }
  }

  /** Two different names are always ordered one way or the other, so a
      comparison that finds neither `<` nor `>` has found the name itself. */
  lemma {:induction false} BelowTotal(a: string, b: string)
    ensures a == b || Below(a, b) || Below(b, a)
  {
    if |a| > 0 && |b| > 0 && a[0] == b[0] {
      BelowTotal(a[1..], b[1..]);
      if a[1..] == b[1..] {
        assert a == [a[0]] + a[1..] && b == [b[0]] + b[1..];
      }
    }
  }
}
