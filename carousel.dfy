/**
 * The carousel list kept in carousel_data.json and the four admin handlers that change it
 * (`/admin/upload`, `/admin/remove`, `/admin/move`, `/admin/caption` in app.js).
 * Each handler reads the whole list, changes it, and writes the whole list back only when its guard holds.
 */
module Carousel {
  import opened Wrappers
  import Intake

  /** One carousel entry: where the media is served, its declared MIME type, and its raw caption. */
  datatype Item = Item(url: string, mimeType: string, caption: string)

  /** The data file as `readCarousel` finds it: absent, not parseable, or holding a list of items. */
  datatype Persisted = Missing | Corrupt | Written(items: seq<Item>)

  /** `readCarousel`: a missing or unparseable file reads as the empty carousel. */
  function Load(file: Persisted): (s: seq<Item>)
    ensures !file.Written? ==> s == []
    ensures s != [] ==> file == Written(s)
  {
    if file.Written? then file.items else []
  }

  /** The media part of a multipart upload, as multer decodes it. */
  datatype UploadedFile = UploadedFile(originalName: string, mimeType: string)

  const UploadsPrefix: string := "/uploads/"

  /** The entry the upload handler appends for a file multer stored at time `now`. */
  function NewItem(f: UploadedFile, now: nat, caption: Option<string>): (x: Item)
    ensures UploadsPrefix <= x.url && x.url[|UploadsPrefix|..] == Intake.StoredName(now, f.originalName)
    ensures x.mimeType == f.mimeType
    ensures x.caption == if caption.Some? then caption.value else ""
  {
    Item(UploadsPrefix + Intake.StoredName(now, f.originalName), f.mimeType, caption.GetOr(""))
  }

  /** `data[i]` is truthy: the parsed index names an existing item (a NaN index never does). */
  predicate Addresses(s: seq<Item>, i: Option<int>): (b: bool)
    ensures i.None? ==> !b
    ensures b ==> i.Some? && 0 <= i.value < |s|
  {
    i.Some? && 0 <= i.value < |s|
  }

  /** `i + d` on parsed integers: NaN when either is NaN. */
  function Offset(i: Option<int>, d: Option<int>): (r: Option<int>)
    ensures r.Some? <==> i.Some? && d.Some?
    ensures r.Some? ==> r.value - d.value == i.value
  {
    if i.Some? && d.Some? then Some(i.value + d.value) else None
  }

  /** The list after `data.splice(i, 1)` guarded by `data[i]`. */
  function Removed(s: seq<Item>, i: Option<int>): (r: seq<Item>)
    ensures Addresses(s, i) ==> |r| == |s| - 1
    ensures Addresses(s, i) ==> forall k :: 0 <= k < i.value ==> r[k] == s[k]
    ensures Addresses(s, i) ==> forall k :: i.value <= k < |r| ==> r[k] == s[k + 1]
    ensures Addresses(s, i) ==> multiset(r) + multiset{s[i.value]} == multiset(s)
    ensures !Addresses(s, i) ==> r == s
  {
    if Addresses(s, i) then
      var k := i.value;
      assert s == s[..k] + [s[k]] + s[k + 1..];
      s[..k] + s[k + 1..]
    else s
  }

  /** The list after the swap of `data[i]` and `data[i + d]` guarded by both being truthy. */
  function Moved(s: seq<Item>, i: Option<int>, d: Option<int>): (r: seq<Item>)
    ensures |r| == |s| && multiset(r) == multiset(s)
    ensures Addresses(s, i) && Addresses(s, Offset(i, d)) ==>
              r[i.value] == s[i.value + d.value] && r[i.value + d.value] == s[i.value] &&
              forall k :: 0 <= k < |s| && k != i.value && k != i.value + d.value ==> r[k] == s[k]
    ensures !(Addresses(s, i) && Addresses(s, Offset(i, d))) ==> r == s
  {
    if Addresses(s, i) && Addresses(s, Offset(i, d)) then
      var a, b := i.value, i.value + d.value;
      SwapPermutes(s, a, b);
      s[a := s[b]][b := s[a]]
    else s
  }

  lemma SwapPermutes(s: seq<Item>, a: nat, b: nat)
    requires a < |s| && b < |s|
    ensures multiset(s[a := s[b]][b := s[a]]) == multiset(s)
  {
    if a != b {
      var t := s[a := s[b]];
      assert multiset(t) == multiset(s) - multiset{s[a]} + multiset{s[b]};
      assert multiset(t[b := s[a]]) == multiset(t) - multiset{t[b]} + multiset{s[a]};
    }
  }

  /** The list after `data[i].caption = caption || ""` guarded by `data[i]`. */
  function Recaptioned(s: seq<Item>, i: Option<int>, caption: Option<string>): (r: seq<Item>)
    ensures |r| == |s|
    ensures forall k :: 0 <= k < |s| ==> r[k].url == s[k].url && r[k].mimeType == s[k].mimeType
    ensures forall k :: 0 <= k < |s| && Some(k) != i ==> r[k] == s[k]
    ensures Addresses(s, i) ==> r[i.value].caption == caption.GetOr("")
    ensures !Addresses(s, i) ==> r == s
  {
    if Addresses(s, i) then s[i.value := s[i.value].(caption := caption.GetOr(""))] else s
  }

  /** Pressing the same move twice puts the list back as it was. */
  lemma MovedTwice(s: seq<Item>, i: Option<int>, d: Option<int>)
    ensures Moved(Moved(s, i, d), i, d) == s
  {
  }

  /** The admin page's down arrow on row `k` followed by the up arrow on row `k + 1` restores the list. */
  lemma DownThenUp(s: seq<Item>, k: int)
    ensures Moved(Moved(s, Some(k), Some(1)), Some(k + 1), Some(-1)) == s
  {
  }

  /** The top row's up arrow and the bottom row's down arrow change nothing. */
  lemma MovesPastTheEnds(s: seq<Item>)
    ensures Moved(s, Some(0), Some(-1)) == s
    ensures Moved(s, Some(|s| - 1), Some(1)) == s
  {
  }

  /** Setting the same caption again changes nothing further. */
  lemma RecaptionedIdempotent(s: seq<Item>, i: Option<int>, caption: Option<string>)
    ensures Recaptioned(Recaptioned(s, i, caption), i, caption) == Recaptioned(s, i, caption)
  {
  }

  /** A handler's response to the browser. */
  datatype Reply =
    | Ok                        // res.send('OK')
    | BackToAdmin               // res.redirect('/admin')
    | UploadFailed              // res.send('Falha no upload')
    | Rejected(message: string) // the file filter's error, raised before the handler runs

  /** The server's view of carousel_data.json, shared by every request. */
  class CarouselStore {
    var file: Persisted

    constructor (initial: Persisted)
      ensures file == initial
    {
      file := initial;
    }

    /** POST /admin/upload: the file filter, then append one entry and save. */
    method Upload(part: Option<UploadedFile>, now: nat, caption: Option<string>) returns (reply: Reply)
      modifies this
      ensures part.None? ==> reply == UploadFailed && file == old(file)
      ensures part.Some? && Intake.FileFilter(part.value.mimeType) != Intake.Accept ==>
                reply == Rejected(Intake.RejectMessage) && file == old(file)
      ensures part.Some? && Intake.FileFilter(part.value.mimeType) == Intake.Accept ==>
                reply == BackToAdmin && file == Written(Load(old(file)) + [NewItem(part.value, now, caption)])
    {
      if part.None? {
        return UploadFailed;
      }
      var verdict := Intake.FileFilter(part.value.mimeType);
      if verdict.Reject? {
        return Rejected(verdict.message);
      }
      var data := Load(file);
      data := data + [NewItem(part.value, now, caption)];
      file := Written(data);
      reply := BackToAdmin;
    }

    /** POST /admin/remove: drop entry `i` if it exists; returns the entry whose media file is then deleted. */
    method Remove(i: Option<int>) returns (reply: Reply, removed: Option<Item>)
      modifies this
      ensures reply == Ok
      ensures Load(file) == Removed(Load(old(file)), i)
      ensures Addresses(Load(old(file)), i) ==>
                removed == Some(Load(old(file))[i.value]) && file == Written(Removed(Load(old(file)), i))
      ensures !Addresses(Load(old(file)), i) ==> removed == None && file == old(file)
    {
      var data := Load(file);
      removed := None;
      if Addresses(data, i) {
        var k := i.value;
        removed := Some(data[k]);
        data := data[..k] + data[k + 1..];
        file := Written(data);
      }
      reply := Ok;
    }

    /** POST /admin/move: swap entries `i` and `i + d` if both exist. */
    method Move(i: Option<int>, d: Option<int>) returns (reply: Reply)
      modifies this
      ensures reply == Ok
      ensures Load(file) == Moved(Load(old(file)), i, d)
      ensures Addresses(Load(old(file)), i) && Addresses(Load(old(file)), Offset(i, d)) ==>
                file == Written(Moved(Load(old(file)), i, d))
      ensures !(Addresses(Load(old(file)), i) && Addresses(Load(old(file)), Offset(i, d))) ==> file == old(file)
    {
      var data := Load(file);
      if Addresses(data, i) && Addresses(data, Offset(i, d)) {
        var a, b := i.value, i.value + d.value;
        data := data[a := data[b]][b := data[a]];
        file := Written(data);
      }
      reply := Ok;
    }

    /** POST /admin/caption: replace the caption of entry `i` if it exists. */
    method SetCaption(i: Option<int>, caption: Option<string>) returns (reply: Reply)
      modifies this
      ensures reply == Ok
      ensures Load(file) == Recaptioned(Load(old(file)), i, caption)
      ensures Addresses(Load(old(file)), i) ==> file == Written(Recaptioned(Load(old(file)), i, caption))
      ensures !Addresses(Load(old(file)), i) ==> file == old(file)
    {
      var data := Load(file);
      if Addresses(data, i) {
        data := data[i.value := data[i.value].(caption := caption.GetOr(""))];
        file := Written(data);
      }
      reply := Ok;
    }
  }

  /** An accepted upload becomes the last entry; every earlier entry stays where it was. */
  lemma UploadAppends(before: Persisted, f: UploadedFile, now: nat, caption: Option<string>)
    ensures var after := Load(Written(Load(before) + [NewItem(f, now, caption)]));
      |after| == |Load(before)| + 1 && after[|after| - 1] == NewItem(f, now, caption) &&
      after[..|Load(before)|] == Load(before)
  {
  }

  /** The entry's url is the uploads prefix followed by a whitespace-free name that records the upload time. */
  lemma NewItemUrl(f: UploadedFile, now: nat, caption: Option<string>)
    ensures var x := NewItem(f, now, caption);
      UploadsPrefix <= x.url && Intake.NoSpace(x.url) &&
      Intake.DecimalValue(Intake.LeadingDigits(x.url[|UploadsPrefix|..])) == now
  {
    var x := NewItem(f, now, caption);
    var name := Intake.StoredName(now, f.originalName);
    assert x.url[|UploadsPrefix|..] == name;
    Intake.StoredNameTimestamp(now, f.originalName);
    forall k | 0 <= k < |x.url| ensures !Intake.IsJsSpace(x.url[k]) {
      if k >= |UploadsPrefix| { assert x.url[k] == name[k - |UploadsPrefix|]; }
    }
  }
}
