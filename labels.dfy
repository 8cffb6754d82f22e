/**
 * Intersection labels: the values of one intersection cell joined with
 * "__" (for instance male__18-24__highschool).
 */
module Labels {

  const Separator: string := "__"

  /** The values joined with the separator, in order. */
  function IntersectionName(parts: seq<string>): (r: string)
    ensures parts != [] ==> parts[0] <= r
    ensures forall k :: 0 <= k < |parts| ==> |parts[k]| <= |r|
  {
    if parts == [] then ""
    else if |parts| == 1 then parts[0]
    else parts[0] + Separator + IntersectionName(parts[1..])
  }

  /** `v` contains no "__". */
  predicate NoSeparator(v: string) {
    forall i :: 0 <= i < |v| - 1 ==> !(v[i] == '_' && v[i + 1] == '_')
  }

  /** A value that can be recovered from a label: no "__" inside and no trailing '_'. */
  predicate Clean(v: string) {
    NoSeparator(v) && (|v| > 0 ==> v[|v| - 1] != '_')
  }

  /**
   * Values without "__" are not enough for labels to identify their cells:
   * two different pairs of such values share a label.
   */
  lemma NoSeparatorIsNotEnough()
    ensures NoSeparator("a_") && NoSeparator("b") && NoSeparator("a") && NoSeparator("_b")
    ensures ["a_", "b"] != ["a", "_b"]
    ensures IntersectionName(["a_", "b"]) == IntersectionName(["a", "_b"])
  {
    assert ["a_", "b"][1..] == ["b"];
    assert ["a", "_b"][1..] == ["_b"];
    assert ["a_", "b"][0] != ["a", "_b"][0];
  }

  /** If `x + "__" + rx == y + "__" + ry` with `x` the shorter part, `y` is not clean. */
  lemma ShorterFirstPart(x: string, rx: string, y: string, ry: string)
    requires x + Separator + rx == y + Separator + ry
    requires |x| < |y|
    ensures !Clean(y)
  {
    var w := x + Separator + rx;
    assert w[|x|] == '_' && w[|x| + 1] == '_';
    assert w[..|y|] == y;
    if |x| + 1 < |y| {
      assert y[|x|] == '_' && y[|x| + 1] == '_';
    } else {
      assert y[|y| - 1] == '_';
    }
  }

  lemma SameFirstPart(x: string, rx: string, y: string, ry: string)
    requires x + Separator + rx == y + Separator + ry
    requires Clean(x) && Clean(y)
    ensures x == y && rx == ry
  {
    if |x| < |y| {
      ShorterFirstPart(x, rx, y, ry);
    } else if |y| < |x| {
      ShorterFirstPart(y, ry, x, rx);
    } else {
      var w := x + Separator + rx;
      assert w[..|x|] == x && (y + Separator + ry)[..|y|] == y;
      assert w[|x| + 2..] == rx && (y + Separator + ry)[|y| + 2..] == ry;
    }
  }

  /** Over clean values, equal labels of equally long value lists come from equal lists. */
  lemma {:induction false} IntersectionNameInjective(a: seq<string>, b: seq<string>)
    requires |a| == |b|
    requires forall i :: 0 <= i < |a| ==> Clean(a[i]) && Clean(b[i])
    requires IntersectionName(a) == IntersectionName(b)
    ensures a == b
  {
    if |a| > 1 {
      SameFirstPart(a[0], IntersectionName(a[1..]), b[0], IntersectionName(b[1..]));
      IntersectionNameInjective(a[1..], b[1..]);
      assert a == [a[0]] + a[1..] && b == [b[0]] + b[1..];
    }
  }
}
