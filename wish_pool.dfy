/**
 * The wish pool of the floating-wishes overlay: the captions of the photos
 * that carry one, in photo order, as `images.filter(...).map(...)` builds it.
 * A caption counts when it is present, non-empty, and non-empty once
 * `String.prototype.trim` has removed the white space around it.
 */
module WishPool {
  import opened Sequences

  datatype Option<T> = None | Some(value: T)

  /**
   * A photo as the listing endpoint returns it. `description` is None when
   * the record has no caption at all (undefined or null).
   */
  datatype Photo = Photo(id: string, url: string, thumbnail: string, description: Option<string>)

  /**
   * The characters `trim` removes: the ECMAScript WhiteSpace characters
   * (tab, vertical tab, form feed, space, no-break space, byte order mark and
   * the Unicode space separators) and the LineTerminator characters.
   */
  predicate IsWhitespace(ch: char) {
    || ch == '\t' || ch == '\n' || ch == '\U{000B}' || ch == '\U{000C}' || ch == '\r' || ch == ' '
    || ch == '\U{00A0}' || ch == '\U{1680}' || ('\U{2000}' <= ch <= '\U{200A}')
    || ch == '\U{2028}' || ch == '\U{2029}' || ch == '\U{202F}' || ch == '\U{205F}'
    || ch == '\U{3000}' || ch == '\U{FEFF}'
  }

  /** Every character of s is white space (so the empty string is blank). */
  predicate Blank(s: string) {
    forall i :: 0 <= i < |s| ==> IsWhitespace(s[i])
  }

  /** s without its leading white space. */
  function TrimStart(s: string): (r: string)
    ensures |r| <= |s| && r == s[|s| - |r|..]
    ensures forall i :: 0 <= i < |s| - |r| ==> IsWhitespace(s[i])
    ensures |r| > 0 ==> !IsWhitespace(r[0])
  {
    if |s| > 0 && IsWhitespace(s[0]) then TrimStart(s[1..]) else s
  }

  /** s without its trailing white space. */
  function TrimEnd(s: string): (r: string)
    ensures |r| <= |s| && r == s[..|r|]
    ensures forall i :: |r| <= i < |s| ==> IsWhitespace(s[i])
    ensures |r| > 0 ==> !IsWhitespace(r[|r| - 1])
  {
    if |s| > 0 && IsWhitespace(s[|s| - 1]) then TrimEnd(s[..|s| - 1]) else s
  }

  /** `s.trim()`: empty exactly when s is blank, else free of white space at both ends. */
  function Trim(s: string): (r: string)
    ensures |r| == 0 <==> Blank(s)
    ensures |r| > 0 ==> !IsWhitespace(r[0]) && !IsWhitespace(r[|r| - 1])
  {
    var t := TrimStart(s);
    var r := TrimEnd(t);
    assert |r| == 0 ==> Blank(s) by {
      if |r| == 0 {
        assert Blank(t);
        assert t == [];
      }
    }
    assert Blank(s) ==> |r| == 0 by {
      if Blank(s) && |t| > 0 {
        assert t[0] == s[|s| - |t|];
      }
    }
    r
  }

  /**
   * The filter of the overlay: `img.description && img.description.trim().length > 0`.
   * A missing description and the empty string are both falsy.
   */
  predicate HasWish(p: Photo) {
    p.description.Some? && p.description.value != "" && |Trim(p.description.value)| > 0
  }

  /** The map of the overlay: `img => img.description`. */
  function Caption(p: Photo): string {
    if p.description.Some? then p.description.value else ""
  }

  /** A photo contributes a wish exactly when it has a description that is not all white space. */
  lemma HasWishIff(p: Photo)
    ensures HasWish(p) <==> p.description.Some? && !Blank(p.description.value)
  {
    if p.description.Some? && p.description.value == "" {
      assert Blank(p.description.value);
    }
  }

  /** `wishes`: the captions of the photos that have one, in photo order; none of them is blank. */
  function Wishes(photos: seq<Photo>): (w: seq<string>)
    ensures |w| <= |photos|
    ensures forall k :: 0 <= k < |w| ==> !Blank(w[k])
  {
    var kept := Filter(photos, HasWish);
    var w := Map(kept, Caption);
    assert forall k :: 0 <= k < |w| ==> HasWish(kept[k]) && w[k] == Caption(kept[k]) by {
      forall k | 0 <= k < |w| ensures HasWish(kept[k]) && w[k] == Caption(kept[k]) {
        assert kept[k] in kept;
      }
    }
    w
  }

  /**
   * The pool is exactly the captions of the photos that pass the filter, in
   * the photos' order: the k-th wish is the caption of photo idx[k], the
   * indices increase, and every photo that passes appears among them.
   */
  lemma WishesInPhotoOrder(photos: seq<Photo>) returns (idx: seq<nat>)
    ensures |idx| == |Wishes(photos)| && Increasing(idx)
    ensures forall k :: 0 <= k < |idx| ==>
      idx[k] < |photos| && HasWish(photos[idx[k]]) && Wishes(photos)[k] == Caption(photos[idx[k]])
    ensures forall i :: 0 <= i < |photos| && HasWish(photos[i]) ==> i in idx
  {
    idx := FilterOrder(photos, HasWish);
  }

  /** The pool is empty exactly when no photo has a caption that is not blank. */
  lemma WishesEmptyIff(photos: seq<Photo>)
    ensures |Wishes(photos)| == 0 <==> forall i :: 0 <= i < |photos| ==> !HasWish(photos[i])
  {
    var idx := WishesInPhotoOrder(photos);
    if |Wishes(photos)| > 0 {
      assert HasWish(photos[idx[0]]);
    }
  }
}
