/**
 * Acquisition: how a box cut out of a camera photo is turned the right way up, where
 * it is written, and the name it is written under.
 */
module Acquire {
  import opened Wrappers
  import opened Text
  import Utils

  // ---------------------------------------------------------------- orientation

  /** The rectangle pyzbar reports for a QR code. */
  datatype Rect = Rect(left: int, top: int)

  /** The extreme points of a box contour, reduced to the coordinates the rule reads. */
  datatype Extremes = Extremes(leftX: int, topY: int, bottomY: int)

  /**
   * The quarter turns (`np.rot90(mask, k)`) applied to a box, in order.  A tall box is
   * turned once when the code lies below its middle and three times when it lies above;
   * both tests read the original extremes.  A wide box is turned twice when the code
   * lies in its left half.  Every box is compared with the first code of the whole image.
   */
  function Rotations(ext: Extremes, height: int, width: int, codes: seq<Rect>): (r: Result<seq<nat>>)
    ensures r.Err? <==> |codes| == 0
  {
    if |codes| == 0 then Err("IndexError")
    else
      var code := codes[0];
      if height > width then
        var bottom := if 2 * code.top > 2 * ext.topY + height then [1] else [];
        var top := if 2 * code.top < 2 * ext.bottomY - height then [3] else [];
        Ok(bottom + top)
      else
        Ok(if 2 * code.left < 2 * ext.leftX + width then [2] else [])
  }

  function QuarterTurns(ks: seq<nat>): nat
  {
    if |ks| == 0 then 0 else ks[0] + QuarterTurns(ks[1..])
  }

  /**
   * For a box cut exactly between its top and bottom extremes, the two tall-box tests
   * exclude each other: the box is turned once, three times, or not at all when the
   * code sits exactly on the middle row.  Were both to fire, the turns would cancel out.
   */
  lemma TallBoxTurnsOnce(ext: Extremes, width: int, codes: seq<Rect>)
    requires |codes| > 0 && ext.bottomY - ext.topY > width
    ensures var r := Rotations(ext, ext.bottomY - ext.topY, width, codes).value;
      var mid2 := ext.topY + ext.bottomY;
      (r == [1] <==> 2 * codes[0].top > mid2)
      && (r == [3] <==> 2 * codes[0].top < mid2)
      && (r == [] <==> 2 * codes[0].top == mid2)
  {
    var mid2 := ext.topY + ext.bottomY;
    var c := codes[0].top;
    if 2 * c > mid2 {
      assert Rotations(ext, ext.bottomY - ext.topY, width, codes).value == [1] + [];
      assert [1] + [] == [1];
    } else if 2 * c < mid2 {
      assert Rotations(ext, ext.bottomY - ext.topY, width, codes).value == [] + [3];
      assert [] + [3] == [3];
    } else {
      assert Rotations(ext, ext.bottomY - ext.topY, width, codes).value == [] + [];
    }
  }

  /** Both tall-box turns fire only on a box shorter than its extremes, and they then cancel out. */
  lemma BothTurnsCancel(ext: Extremes, height: int, width: int, codes: seq<Rect>)
    requires Rotations(ext, height, width, codes) == Ok([1, 3])
    ensures QuarterTurns([1, 3]) % 4 == 0 && height < ext.bottomY - ext.topY
  {
    var c := codes[0].top;
    assert height > width by {
      if height <= width {
        assert false;
      }
    }
    var bottom := if 2 * c > 2 * ext.topY + height then [1] else [];
    var top := if 2 * c < 2 * ext.bottomY - height then [3] else [];
    assert bottom + top == [1, 3];
    assert |bottom| == 1 && |top| == 1;
  }

  // ---------------------------------------------------------------- the uid of a name

  /**
   * `re.search(r"{uid_(?P<uid>.+?)}", s)`: the text after the first `{uid_` up to the
   * next `}`, at least one character long.
   */
  function UidOf(s: string): (r: Option<string>)
    ensures r.Some? ==>
      exists i :: (OccursAt(s, "{uid_", i) && i + 5 + |r.value| < |s|
        && r.value == s[i + 5..i + 5 + |r.value|] && s[i + 5 + |r.value|] == '}')
  {
    var i := IndexOf(s, "{uid_", 0);
    if i == -1 then None
    else
      var j := IndexOf(s, "}", i + 6);
      if j == -1 then None
      else
        assert s[j..j + 1] == "}";
        Some(s[i + 5..j])
  }

  /** The match is the leftmost one, and its uid is the shortest: it holds no `}` past its first character. */
  lemma UidOfIsLeftmostShortest(s: string)
    requires UidOf(s).Some?
    ensures var u := UidOf(s).value;
      var i := IndexOf(s, "{uid_", 0);
      |u| >= 1 && (forall k :: 0 <= k < i ==> !OccursAt(s, "{uid_", k))
      && forall k :: 1 <= k < |u| ==> u[k] != '}'
  {
    var i := IndexOf(s, "{uid_", 0);
    var j := IndexOf(s, "}", i + 6);
    var u := UidOf(s).value;
    forall k | 1 <= k < |u|
      ensures u[k] != '}'
    {
      assert !OccursAt(s, "}", i + 5 + k);
      assert s[i + 5 + k..i + 5 + k + 1] == [s[i + 5 + k]];
    }
  }

  /** No uid is found exactly when no `{uid_` is followed, one character on or later, by a `}`. */
  lemma UidOfNone(s: string)
    ensures UidOf(s).None? <==>
      forall i, j :: 0 <= i && OccursAt(s, "{uid_", i) && i + 6 <= j < |s| ==> s[j] != '}'
  {
    var i0 := IndexOf(s, "{uid_", 0);
    if UidOf(s).None? && i0 != -1 {
      forall i, j | 0 <= i && OccursAt(s, "{uid_", i) && i + 6 <= j < |s|
        ensures s[j] != '}'
      {
        assert i0 <= i;
        assert !OccursAt(s, "}", j);
        assert s[j..j + 1] == [s[j]];
      }
    }
    if UidOf(s).Some? {
      var j := IndexOf(s, "}", i0 + 6);
      assert s[j..j + 1] == "}";
      assert s[j] == '}';
    }
  }

  // ---------------------------------------------------------------- destination

  /** `kv_dict.get(key)` taken as a truth value: present and non-empty. */
  function NonEmptyValue(attrs: map<string, string>, key: string): Option<string>
  {
    if key in attrs && attrs[key] != "" then Some(attrs[key]) else None
  }

  /**
   * The directory a box is written to: `dest/<value of destdir>`, and below it
   * `<value of destsub>` when a sub key is given and found; `dest` itself when the
   * directory key is missing or empty.
   */
  function DestDir(dest: string, attrs: map<string, string>, destdir: string, destsub: string): (r: string)
  {
    match NonEmptyValue(attrs, destdir)
    case None => dest
    case Some(dirname) =>
      if destsub != "" && NonEmptyValue(attrs, destsub).Some? then
        PathJoinAll(dest, [dirname, NonEmptyValue(attrs, destsub).value])
      else PathJoin(dest, dirname)
  }

  /** The three outcomes of the destination rule, and the sub key is read only when the directory key is set. */
  lemma DestDirCases(dest: string, attrs: map<string, string>, destdir: string, destsub: string)
    ensures NonEmptyValue(attrs, destdir).None? ==> DestDir(dest, attrs, destdir, destsub) == dest
    ensures NonEmptyValue(attrs, destdir).Some? && (destsub == "" || NonEmptyValue(attrs, destsub).None?) ==>
      DestDir(dest, attrs, destdir, destsub) == PathJoin(dest, attrs[destdir])
    ensures NonEmptyValue(attrs, destdir).Some? && destsub != "" && NonEmptyValue(attrs, destsub).Some? ==>
      DestDir(dest, attrs, destdir, destsub) == PathJoin(PathJoin(dest, attrs[destdir]), attrs[destsub])
  {
    if NonEmptyValue(attrs, destdir).Some? && destsub != "" && NonEmptyValue(attrs, destsub).Some? {
      var d, b := attrs[destdir], attrs[destsub];
      assert [d, b][1..] == [b];
      assert PathJoinAll(PathJoin(dest, d), [b]) == PathJoinAll(PathJoin(PathJoin(dest, d), b), []);
    }
  }

  // ---------------------------------------------------------------- photo number and name

  /** The directory entries whose lower-cased name carries the uid `uid`, in listing order. */
  function SameUid(listing: seq<string>, uid: string): seq<string>
  {
    if |listing| == 0 then []
    else
      var rest := SameUid(listing[..|listing| - 1], uid);
      var f := listing[|listing| - 1];
      if UidOf(Lower(f)) == Some(uid) then rest + [f] else rest
  }

  /** The counted entries are exactly the listed names carrying the uid. */
  lemma {:induction false} SameUidMembers(listing: seq<string>, uid: string)
    ensures |SameUid(listing, uid)| <= |listing|
    ensures forall f :: f in SameUid(listing, uid) <==> f in listing && UidOf(Lower(f)) == Some(uid)
  {
    if |listing| > 0 {
      var init := listing[..|listing| - 1];
      SameUidMembers(init, uid);
      assert listing == init + [listing[|listing| - 1]];
    }
  }

  /** A file written for the same uid raises the next photo number by one; any other file leaves it. */
  lemma {:induction false} NextPhotoNumber(listing: seq<string>, uid: string, f: string)
    ensures UidOf(Lower(f)) == Some(uid) ==> |SameUid(listing + [f], uid)| == |SameUid(listing, uid)| + 1
    ensures UidOf(Lower(f)) != Some(uid) ==> |SameUid(listing + [f], uid)| == |SameUid(listing, uid)|
  {
    assert (listing + [f])[..|listing|] == listing;
  }

  /** The pairs written into the file name: the QR pairs, then the scale when measured, then the photo number. */
  function NamePairs(qrPairs: seq<string>, scalebar: Result<int>, photo: int): seq<string>
  {
    qrPairs + (if scalebar.Ok? then [ScaleToken(scalebar.value)] else []) + [PhotoToken(photo)]
  }

  function ScaleToken(n: int): string { "Scale_" + IntToString(n) }

  function PhotoToken(n: int): string { "Photo_" + IntToString(n) }

  /** Numbered tokens are pairs. */
  lemma NumberPair(key: string, n: int)
    requires |key| > 0 && forall k :: 0 <= k < |key| ==> IsWordChar(key[k])
    ensures Utils.IsPair(key + "_" + IntToString(n))
  {
    var t := key + "_" + IntToString(n);
    var s := IntToString(n);
    assert forall k :: 0 <= k < |s| ==> IsWordDashChar(s[k]) by {
      if n < 0 {
        assert s == "-" + NatToString(-n);
        assert forall k :: 1 <= k < |s| ==> s[k] == NatToString(-n)[k - 1];
      }
    }
    assert forall k :: 0 <= k < |t| ==> IsWordDashChar(t[k]) by {
      forall k | 0 <= k < |t|
        ensures IsWordDashChar(t[k])
      {
        if k > |key| {
          assert t[k] == s[k - |key| - 1];
        }
      }
    }
    assert t[|key|] == '_';
  }

  /** The scale and photo tokens are pairs. */
  lemma TokensArePairs(n: int)
    ensures Utils.IsPair(ScaleToken(n)) && Utils.IsPair(PhotoToken(n))
  {
    NumberPair("Scale", n);
    NumberPair("Photo", n);
    assert ScaleToken(n) == "Scale" + "_" + IntToString(n);
    assert PhotoToken(n) == "Photo" + "_" + IntToString(n);
  }

  /**
   * Reading the written name back gives the QR pairs, the scale when it was measured,
   * and the photo number, in that order.
   */
  lemma NameReadsBack(qr: string, scalebar: Result<int>, photo: int)
    ensures var pairs := NamePairs(Utils.GetKvPairs(qr), scalebar, photo);
      Utils.GetKvPairs(Utils.Braced(pairs) + Utils.FileFormat) == pairs
  {
    var pairs := NamePairs(Utils.GetKvPairs(qr), scalebar, photo);
    NamePairsArePairs(Utils.GetKvPairs(qr), scalebar, photo);
    Utils.KvPairsOfBraced(pairs, Utils.FileFormat);
    Utils.PairsNoBrace(Utils.FileFormat);
    assert pairs + [] == pairs;
  }

  /** The QR pairs, the scale token and the photo token are all `key_value` pairs. */
  lemma NamePairsArePairs(qrPairs: seq<string>, scalebar: Result<int>, photo: int)
    requires forall k :: 0 <= k < |qrPairs| ==> Utils.IsPair(qrPairs[k])
    ensures forall k :: 0 <= k < |NamePairs(qrPairs, scalebar, photo)| ==> Utils.IsPair(NamePairs(qrPairs, scalebar, photo)[k])
  {
    var pairs := NamePairs(qrPairs, scalebar, photo);
    TokensArePairs(if scalebar.Ok? then scalebar.value else 0);
    TokensArePairs(photo);
    var extra := if scalebar.Ok? then [ScaleToken(scalebar.value)] else [];
    assert pairs == qrPairs + extra + [PhotoToken(photo)];
    forall k | 0 <= k < |pairs|
      ensures Utils.IsPair(pairs[k])
    {
      if k < |qrPairs| {
        assert pairs[k] == qrPairs[k];
      } else if k < |qrPairs| + |extra| {
        assert pairs[k] == extra[k - |qrPairs|];
      } else {
        assert pairs[k] == PhotoToken(photo);
      }
    }
  }

  /** What one box produces: the path written, or nothing when the box carries no QR text. */
  function SavedPath(qr: string, dest: string, destdir: string, destsub: string, listing: seq<string>, scalebar: Result<int>)
    : (r: Result<Option<string>>)
  {
    if qr == "" then Ok(None)
    else
      match UidOf(Lower(qr))
      case None => Err("AttributeError")
      case Some(uid) =>
        match Utils.GetAttributes(qr)
        case Err(e) => Err(e)
        case Ok(attrs) => Ok(Some(PhotoPathOf(qr, dest, attrs, destdir, destsub, listing, uid, scalebar)))
  }

  /** The destination folder joined with the QR pairs, the scale and the next photo number. */
  function PhotoPathOf(qr: string, dest: string, attrs: map<string, string>, destdir: string, destsub: string,
                       listing: seq<string>, uid: string, scalebar: Result<int>): string
  {
    var dir := DestDir(dest, attrs, destdir, destsub);
    var pairs := NamePairs(Utils.GetKvPairs(qr), scalebar, |SameUid(listing, uid)| + 1);
    PathJoin(dir, Utils.Braced(pairs) + Utils.FileFormat)
  }

  /** The directory entries whose lower-cased name carries `uid`, in listing order. */
  method ExistingPhotos(listing: seq<string>, uid: string) returns (existing: seq<string>)
    ensures existing == SameUid(listing, uid)
  {
    existing := [];
    var i := 0;
    while i < |listing|
      invariant 0 <= i <= |listing|
      invariant existing == SameUid(listing[..i], uid)
    {
      assert listing[..i + 1][..i] == listing[..i];
      if UidOf(Lower(listing[i])) == Some(uid) {
        existing := existing + [listing[i]];
      }
      i := i + 1;
    }
    assert listing[..i] == listing;
  }

  /**
   * `save_box_as_image`: counts the directory entries of the same uid, then appends the
   * scale (when the scale bar was measured) and the photo number to the QR pairs.
   * `listing` is the content of the destination directory; `scalebar` the outcome of
   * measuring the box's scale bar.
   */
  method SaveBoxAsImage(qr: string, dest: string, destdir: string, destsub: string, listing: seq<string>, scalebar: Result<int>)
    returns (r: Result<Option<string>>)
    ensures r == SavedPath(qr, dest, destdir, destsub, listing, scalebar)
  {
    if qr == "" {
      return Ok(None);
    }
    var uid := UidOf(Lower(qr));
    if uid.None? {
      return Err("AttributeError");
    }
    var kvDict := Utils.GetAttributes(qr);
    if kvDict.Err? {
      return Err(kvDict.error);
    }
    var path := PhotoPath(qr, dest, kvDict.value, destdir, destsub, listing, uid.value, scalebar);
    r := Ok(Some(path));
  }

  /** The path `save_box_as_image` writes once the uid and the attributes are read. */
  method PhotoPath(qr: string, dest: string, attrs: map<string, string>, destdir: string, destsub: string,
                   listing: seq<string>, uid: string, scalebar: Result<int>)
    returns (path: string)
    ensures path == PhotoPathOf(qr, dest, attrs, destdir, destsub, listing, uid, scalebar)
  {
    var destDir := DestDir(dest, attrs, destdir, destsub);
    var existing := ExistingPhotos(listing, uid);
    var count := |existing|;
    ghost var qrPairs := Utils.GetKvPairs(qr);
    var kvPairs := Utils.GetKvPairs(qr);
    if scalebar.Ok? {
      kvPairs := kvPairs + [ScaleToken(scalebar.value)];
    } else {
      assert kvPairs == qrPairs + [];
    }
    kvPairs := kvPairs + [PhotoToken(count + 1)];
    var filename := Utils.Braced(kvPairs) + Utils.FileFormat;
    path := PathJoin(destDir, filename);
  }
}
