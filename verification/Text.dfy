/** The few string operations the modelled code relies on. */
module Text {

  /** Python's s.split(c): one more piece than there are separators. */
  function Split(s: string, c: char): (pieces: seq<string>)
    ensures |pieces| > 0
    ensures forall p :: p in pieces ==> c !in p
  {
    if s == "" then [""]
    else
      var rest := Split(s[1..], c);
      if s[0] == c then [""] + rest else [[s[0]] + rest[0]] + rest[1..]
  }

  lemma {:induction false} SplitWhole(piece: string, c: char)
    requires c !in piece
    ensures Split(piece, c) == [piece]
  {
    if piece != "" {
      SplitWhole(piece[1..], c);
      assert [piece[0]] + piece[1..] == piece;
    }
  }

  lemma {:induction false} SplitFirst(piece: string, c: char, rest: string)
    requires c !in piece
    ensures Split(piece + [c] + rest, c) == [piece] + Split(rest, c)
  {
    var s := piece + [c] + rest;
    if piece == "" {
      assert s[1..] == rest;
    } else {
      SplitFirst(piece[1..], c, rest);
      assert s[1..] == piece[1..] + [c] + rest;
      assert [piece[0]] + piece[1..] == piece;
    }
  }

  /** Python's order on strings: by code point, a prefix first. */
  predicate Before(a: string, b: string) {
    if b == "" then false
    else if a == "" then true
    else a[0] < b[0] || (a[0] == b[0] && Before(a[1..], b[1..]))
  }

  lemma {:induction false} BeforeIsStrict(a: string, b: string)
    ensures a == b ==> !Before(a, b)
    ensures a != b ==> Before(a, b) != Before(b, a)
  {
    if a != "" && b != "" && a[0] == b[0] {
      assert a == [a[0]] + a[1..] && b == [b[0]] + b[1..];
      BeforeIsStrict(a[1..], b[1..]);
    }
  }

  lemma {:induction false} BeforeIsTransitive(a: string, b: string, c: string)
    requires Before(a, b) && Before(b, c)
    ensures Before(a, c)
  {
    if a != "" && a[0] == b[0] == c[0] {
      BeforeIsTransitive(a[1..], b[1..], c[1..]);
    }
  }

  /** At the first character that differs the lower one comes first; or one is the
      start of the other. */
  lemma {:induction false} BeforeExactlyWhen(a: string, b: string)
    ensures Before(a, b)
            <==> || a < b
                 || exists i :: 0 <= i < |a| && i < |b| && a[..i] == b[..i] && a[i] < b[i]
  {
    if a != "" && b != "" {
      assert a == [a[0]] + a[1..] && b == [b[0]] + b[1..];
      if a[0] < b[0] {
        assert a[..0] == b[..0];
      } else if a[0] == b[0] {
        BeforeExactlyWhen(a[1..], b[1..]);
        forall i | 0 <= i < |a| - 1 && i < |b| - 1
          ensures a[1..][..i] == b[1..][..i] <==> a[..i + 1] == b[..i + 1]
        {
          assert a[..i + 1] == [a[0]] + a[1..][..i] && b[..i + 1] == [b[0]] + b[1..][..i];
        }
        forall i | 0 < i < |a| && i < |b|
          ensures a[i] == a[1..][i - 1] && b[i] == b[1..][i - 1]
        {
        }
      }
    }
  }

  predicate IsFirst(key: string, keys: set<string>) {
    key in keys && forall k :: k in keys && k != key ==> Before(key, k)
  }

  lemma {:induction false} FirstExists(keys: set<string>) returns (key: string)
    requires keys != {}
    ensures IsFirst(key, keys)
    decreases keys
  {
    var some :| some in keys;
    if keys == {some} {
      return some;
    }
    var rest := keys - {some};
    var least := FirstExists(rest);
    BeforeIsStrict(some, least);
    if Before(some, least) {
      key := some;
      forall k | k in keys && k != key
        ensures Before(key, k)
      {
        if k != least {
          BeforeIsTransitive(some, least, k);
        }
      }
    } else {
      key := least;
    }
  }

  ghost function First(keys: set<string>): (key: string)
    requires keys != {}
    ensures IsFirst(key, keys)
  {
    assert exists key :: IsFirst(key, keys) by {
      var key := FirstExists(keys);
    }
    var key :| IsFirst(key, keys);
    key
  }

  /** Python's sorted() of a set of strings. */
  ghost function Sorted(keys: set<string>): (order: seq<string>)
    ensures forall k :: k in order <==> k in keys
    ensures forall i, j :: 0 <= i < j < |order| ==> Before(order[i], order[j])
    ensures forall i, j :: 0 <= i < j < |order| ==> order[i] != order[j]
  {
    if keys == {} then []
    else
      var key := First(keys);
      var rest := Sorted(keys - {key});
      assert forall k :: k in rest ==> Before(key, k) && k != key;
      [key] + rest
  }

  method Least(keys: set<string>) returns (least: string)
    requires keys != {}
    ensures IsFirst(least, keys)
  {
    least :| least in keys;
    var others := keys - {least};
    while others != {}
      invariant others <= keys && IsFirst(least, keys - others)
      decreases others
    {
      var k :| k in others;
      BeforeIsStrict(k, least);
      if Before(k, least) {
        forall o | o in keys - others
          ensures Before(k, o)
        {
          if o != least {
            BeforeIsTransitive(k, least, o);
          }
        }
        least := k;
      }
      others := others - {k};
    }
    assert keys - others == keys;
  }

  lemma SortedFirst(keys: set<string>, least: string)
    requires keys != {} && IsFirst(least, keys)
    ensures Sorted(keys) == [least] + Sorted(keys - {least})
  {
    BeforeIsStrict(least, First(keys));
  }

  lemma Shift(order: seq<string>, key: string, rest: seq<string>)
    ensures order + ([key] + rest) == (order + [key]) + rest
  {
  }

  method SortKeys(keys: set<string>) returns (order: seq<string>)
    ensures order == Sorted(keys)
  {
    order := [];
    var left := keys;
    while left != {}
      invariant Sorted(keys) == order + Sorted(left)
      decreases left
    {
      var least := Least(left);
      SortedFirst(left, least);
      Shift(order, least, Sorted(left - {least}));
      order := order + [least];
      left := left - {least};
    }
  }
}
