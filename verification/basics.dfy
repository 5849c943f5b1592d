/** Shared value types of the face-analysis core: optional values, landmark
    points, RGB pixels, rectangular images, and the "subsequence" relation used
    to state that an ordered result keeps the order of the table it was drawn
    from. */
module Basics {

  /** The conventional Some/None datatype, standing in for Python's `None`. */
  datatype Option<+T> = None | Some(value: T)

  /** A landmark in pixel coordinates: column `x`, row `y`. The detector may
      place landmarks outside the image, so both coordinates are unbounded. */
  datatype Point = Point(x: int, y: int)

  /** One 8-bit colour channel. */
  type Byte = b: int | 0 <= b < 256

  /** An RGB pixel; the all-zero pixel is what masking leaves behind. */
  datatype Pixel = Pixel(r: Byte, g: Byte, b: Byte)

  const Black: Pixel := Pixel(0, 0, 0)

  /** `g` has exactly `h` rows of exactly `w` cells each. */
  ghost predicate IsGrid<T>(g: seq<seq<T>>, h: nat, w: nat) {
    |g| == h && forall i :: 0 <= i < h ==> |g[i]| == w
  }

  /** A pixel buffer of `height` rows and `width` columns (numpy's
      `image.shape == (height, width, 3)`). */
  datatype Image = Image(height: nat, width: nat, pixels: seq<seq<Pixel>>) {
    predicate Valid() {
      |pixels| == height && forall i :: 0 <= i < |pixels| ==> |pixels[i]| == width
    }
  }

  /** Images as the preprocessing stage hands them over: always rectangular. */
  type ValidImage = img: Image | img.Valid() witness Image(0, 0, [])

  /** `a` is obtained from `b` by deleting elements: every element of `a`
      occurs in `b`, in the same relative order. */
  predicate IsSubsequence<T(==)>(a: seq<T>, b: seq<T>)
    decreases |b|
  {
    if a == [] then true
    else if b == [] then false
    else if a[0] == b[0] then IsSubsequence(a[1..], b[1..])
    else IsSubsequence(a, b[1..])
  }

  /** A subsequence draws all of its elements from the longer sequence. */
  lemma {:induction false} SubsequenceElements<T>(a: seq<T>, b: seq<T>)
    requires IsSubsequence(a, b)
    ensures forall x :: x in a ==> x in b
    decreases |b|
  {
    if a != [] && b != [] {
      if a[0] == b[0] {
        SubsequenceElements(a[1..], b[1..]);
        forall x | x in a ensures x in b {
          if x != a[0] {
            assert x in a[1..];
          }
        }
      } else {
        SubsequenceElements(a, b[1..]);
      }
    }
  }

  /** Dropping the head of the longer sequence keeps a subsequence one. */
  lemma SubsequenceSkip<T>(a: seq<T>, b: seq<T>)
    requires b != [] && IsSubsequence(a, b[1..])
    ensures IsSubsequence(a, b)
    decreases |b|, |a|
  {
    if a != [] && a[0] == b[0] {
      SubsequenceOfTail(a, b[1..]);
    }
  }

  /** A subsequence of `b` stays one after its own head is dropped. */
  lemma {:induction false} SubsequenceOfTail<T>(a: seq<T>, b: seq<T>)
    requires a != [] && IsSubsequence(a, b)
    ensures IsSubsequence(a[1..], b)
    decreases |b|, |a|
  {
    if a[0] == b[0] {
      if a[1..] != [] {
        SubsequenceOfTail(a[1..], b[1..]);
        SubsequenceSkip(a[1..], b);
      }
    } else {
      SubsequenceOfTail(a, b[1..]);
      if a[1..] != [] {
        SubsequenceSkip(a[1..], b);
      }
    }
  }

  /** Keeping the head of the longer sequence keeps a subsequence one. */
  lemma SubsequenceKeep<T>(a: seq<T>, b: seq<T>)
    requires b != [] && IsSubsequence(a, b[1..])
    ensures IsSubsequence([b[0]] + a, b)
  {
    assert ([b[0]] + a)[1..] == a;
  }

  /** The elements of `s` that satisfy `keep`, in their original order. */
  function Filter<T(!new)>(s: seq<T>, keep: T -> bool): (r: seq<T>)
    ensures IsSubsequence(r, s)
    ensures forall x :: x in r <==> x in s && keep(x)
  {
    if s == [] then []
    else
      var rest := Filter(s[1..], keep);
      if keep(s[0]) then
        SubsequenceKeep(rest, s);
        [s[0]] + rest
      else
        SubsequenceSkip(rest, s);
        rest
  }

  /** No element occurs twice. */
  predicate Distinct<T(==)>(s: seq<T>) {
    forall i, j :: 0 <= i < j < |s| ==> s[i] != s[j]
  }

  /** The keys of an ordered dictionary held as a list of entries, in
      insertion order. */
  function Keys<K, V>(m: seq<(K, V)>): (ks: seq<K>)
    ensures |ks| == |m|
    ensures forall i :: 0 <= i < |m| ==> ks[i] == m[i].0
  {
    seq(|m|, i requires 0 <= i < |m| => m[i].0)
  }

  /** Prepending an entry prepends its key. */
  lemma KeysCons<K, V>(e: (K, V), m: seq<(K, V)>)
    ensures Keys([e] + m) == [e.0] + Keys(m)
  {
  }

  /** A key is present exactly when some entry carries it. */
  lemma KeysMembership<K, V>(m: seq<(K, V)>)
    ensures forall e :: e in m ==> e.0 in Keys(m)
    ensures forall key :: key in Keys(m) ==> exists e :: e in m && e.0 == key
  {
    forall e | e in m ensures e.0 in Keys(m) {
      var i :| 0 <= i < |m| && m[i] == e;
      assert Keys(m)[i] == e.0;
    }
    forall key | key in Keys(m) ensures exists e :: e in m && e.0 == key {
      var i :| 0 <= i < |m| && Keys(m)[i] == key;
      assert m[i] in m;
    }
  }

  /** The key of an entry is among the keys. */
  lemma EntryKey<K, V>(m: seq<(K, V)>, e: (K, V))
    requires e in m
    ensures e.0 in Keys(m)
  {
    KeysMembership(m);
  }

  /** Taking keys preserves the subsequence relation. */
  lemma {:induction false} SubsequenceKeys<K, V>(a: seq<(K, V)>, b: seq<(K, V)>)
    requires IsSubsequence(a, b)
    ensures IsSubsequence(Keys(a), Keys(b))
    decreases |b|
  {
    if a != [] && b != [] {
      assert Keys(b)[1..] == Keys(b[1..]);
      if a[0] == b[0] {
        SubsequenceKeys(a[1..], b[1..]);
        assert Keys(a)[1..] == Keys(a[1..]);
      } else {
        SubsequenceKeys(a, b[1..]);
        SubsequenceSkip(Keys(a), Keys(b));
      }
    }
  }

  /** With distinct keys, an entry is the only one carrying its key: if a
      selection of entries carries that key, it carries that entry. */
  lemma DistinctKeyEntry<K, V>(s: seq<(K, V)>, sub: seq<(K, V)>, i: nat)
    requires Distinct(Keys(s)) && i < |s|
    requires forall x :: x in sub ==> x in s
    requires s[i].0 in Keys(sub)
    ensures s[i] in sub
  {
    var k :| 0 <= k < |sub| && Keys(sub)[k] == s[i].0;
    assert sub[k] in sub;
    var j :| 0 <= j < |s| && s[j] == sub[k];
    assert Keys(s)[j] == Keys(s)[i];
  }

  /** The ordered dictionary that pairs each key with its value, skipping
      the keys whose value is absent, in key order. */
  function Collect<K, V>(keys: seq<K>, vals: seq<Option<V>>): (m: seq<(K, V)>)
    requires |keys| == |vals|
    ensures IsSubsequence(Keys(m), keys)
    decreases |keys|
  {
    if keys == [] then []
    else
      var rest := Collect(keys[1..], vals[1..]);
      match vals[0]
      case None =>
        SubsequenceSkip(Keys(rest), keys);
        rest
      case Some(v) =>
        SubsequenceKeep(Keys(rest), keys);
        KeysCons((keys[0], v), rest);
        [(keys[0], v)] + rest
  }

  /** With distinct keys, a key is in the collected dictionary exactly when
      its value is present. */
  lemma {:induction false} CollectKeys<K, V>(keys: seq<K>, vals: seq<Option<V>>, j: nat)
    requires |keys| == |vals| && Distinct(keys) && j < |keys|
    ensures keys[j] in Keys(Collect(keys, vals)) <==> vals[j].Some?
    decreases |keys|
  {
    var rest := Collect(keys[1..], vals[1..]);
    if j > 0 {
      assert keys[1..][j - 1] == keys[j];
      CollectKeys(keys[1..], vals[1..], j - 1);
    } else {
      SubsequenceElements(Keys(rest), keys[1..]);
    }
    match vals[0]
    case None =>
    case Some(v) =>
      KeysCons((keys[0], v), rest);
  }

  /** With distinct keys, the entry of a key holds that key's value. */
  lemma {:induction false} CollectEntries<K, V>(keys: seq<K>, vals: seq<Option<V>>, j: nat)
    requires |keys| == |vals| && Distinct(keys) && j < |keys|
    ensures forall e :: e in Collect(keys, vals) && e.0 == keys[j] ==> vals[j] == Some(e.1)
    decreases |keys|
  {
    var rest := Collect(keys[1..], vals[1..]);
    if j > 0 {
      assert keys[1..][j - 1] == keys[j];
      CollectEntries(keys[1..], vals[1..], j - 1);
    } else {
      SubsequenceElements(Keys(rest), keys[1..]);
      forall e | e in rest ensures e.0 != keys[0] {
        EntryKey(rest, e);
      }
    }
  }

  function Max(a: int, b: int): int { if a >= b then a else b }

  function Min(a: int, b: int): int { if a <= b then a else b }
}
