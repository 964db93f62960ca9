/**
 * The two pages built from the carousel list (GET / and GET /admin in app.js) and the
 * public page's script that steps through the slides.
 */
module Render {
  import opened Wrappers
  import Html
  import Intake
  import Carousel

  /** Which element the page writes for an item. */
  datatype Markup = ImageTag | VideoTag

  /** For a type the filter accepted, `<img>` exactly for top-level type `image` and `<video>` exactly for `video`. */
  function MarkupFor(mimeType: string): (m: Markup)
    ensures Intake.FileFilter(mimeType) == Intake.Accept ==>
              (m == ImageTag <==> Intake.TopLevelType(mimeType) == Some("image")) &&
              (m == VideoTag <==> Intake.TopLevelType(mimeType) == Some("video"))
  {
    Intake.TopLevelTypeOfPrefix("image", mimeType);
    Intake.TopLevelTypeOfPrefix("video", mimeType);
    if Intake.ShowsAsImage(mimeType) then ImageTag else VideoTag
  }

  /** One `.carousel-item` of the public page. */
  datatype Slide = Slide(markup: Markup, src: string, caption: string, active: bool)

  /** The public page: the "no items" message, or the slides with their controls. */
  datatype PublicPage = NoItems | Slides(slides: seq<Slide>)

  function RenderPublic(items: seq<Carousel.Item>): (p: PublicPage)
    ensures p.NoItems? <==> items == []
    ensures p.Slides? ==> |p.slides| == |items|
    ensures p.Slides? ==> forall k :: 0 <= k < |items| ==>
              p.slides[k].src == items[k].url && (p.slides[k].active <==> k == 0) &&
              Html.Unescape(p.slides[k].caption) == items[k].caption &&
              (forall j :: 0 <= j < |p.slides[k].caption| ==> !Html.IsMarkupChar(p.slides[k].caption[j])) &&
              (Intake.FileFilter(items[k].mimeType) == Intake.Accept ==>
                (p.slides[k].markup == ImageTag <==> "image/" <= items[k].mimeType))
  {
    if items == [] then NoItems
    else Slides(seq(|items|, k requires 0 <= k < |items| =>
      Slide(MarkupFor(items[k].mimeType), items[k].url, Html.EscapeHtml(Some(items[k].caption)), k == 0)))
  }

  /** The positions of the slides that start out visible. */
  function ActiveSlides(slides: seq<Slide>): set<int> {
    set k | 0 <= k < |slides| && slides[k].active
  }

  /** A non-empty carousel opens on its first item and on that one only. */
  lemma FirstSlideOnlyActive(items: seq<Carousel.Item>)
    requires items != []
    ensures ActiveSlides(RenderPublic(items).slides) == {0}
  {
  }

  /** A first upload of "a b.jpg" as image/jpeg with caption "Hi" shows one active image slide with a whitespace-free url. */
  lemma FirstUploadScenario(now: nat)
    ensures var items := Carousel.Load(Carousel.Written(Carousel.Load(Carousel.Missing) +
                           [Carousel.NewItem(Carousel.UploadedFile("a b.jpg", "image/jpeg"), now, Some("Hi"))]));
      |items| == 1 && Intake.NoSpace(items[0].url) && items[0].caption == "Hi" &&
      RenderPublic(items).Slides? && RenderPublic(items).slides[0].markup == ImageTag &&
      ActiveSlides(RenderPublic(items).slides) == {0}
  {
    var f := Carousel.UploadedFile("a b.jpg", "image/jpeg");
    var items := [Carousel.NewItem(f, now, Some("Hi"))];
    Carousel.NewItemUrl(f, now, Some("Hi"));
    FirstSlideOnlyActive(items);
    assert "image" <= "image/jpeg";
  }

  /** One `.item` row of the admin page; `index` is what its buttons and caption box send back. */
  datatype AdminRow = AdminRow(index: int, markup: Markup, src: string, captionValue: string)

  function RenderAdmin(items: seq<Carousel.Item>): (rows: seq<AdminRow>)
    ensures |rows| == |items|
    ensures forall k :: 0 <= k < |rows| ==> rows[k].index == k && rows[k].src == items[k].url
    ensures forall k :: 0 <= k < |rows| ==>
              Html.Unescape(rows[k].captionValue) == items[k].caption &&
              (forall j :: 0 <= j < |rows[k].captionValue| ==> !Html.IsMarkupChar(rows[k].captionValue[j]))
    ensures forall k :: 0 <= k < |rows| && Intake.FileFilter(items[k].mimeType) == Intake.Accept ==>
              (rows[k].markup == ImageTag <==> "image/" <= items[k].mimeType)
  {
    seq(|items|, k requires 0 <= k < |items| =>
      AdminRow(k, MarkupFor(items[k].mimeType), items[k].url, Html.EscapeHtml(Some(items[k].caption))))
  }

  /** Every row addresses its own item: its remove request drops that item, its arrows swap it with a neighbour. */
  lemma AdminRowsAddressTheirItems(items: seq<Carousel.Item>, k: int)
    requires 0 <= k < |items|
    ensures var i := Some(RenderAdmin(items)[k].index);
      Carousel.Addresses(items, i) &&
      Carousel.Removed(items, i) == items[..k] + items[k + 1..] &&
      (k > 0 ==> Carousel.Moved(items, i, Some(-1))[k - 1] == items[k]) &&
      (k < |items| - 1 ==> Carousel.Moved(items, i, Some(1))[k + 1] == items[k])
  {
  }

  /** JavaScript's `%`: the remainder takes the sign of the dividend. */
  function JsRem(a: int, b: int): (r: int)
    requires b > 0
    ensures a >= 0 ==> 0 <= r < b
    ensures a < 0 ==> -b < r <= 0
    ensures (a - r) % b == 0
  {
    if a >= 0 then
      ModByQuotient(a - a % b, b, a / b, 0);
      a % b
    else
      ModByQuotient(a + (-a) % b, b, -((-a) / b), 0);
      -((-a) % b)
  }

  lemma MulAtLeast(c: int, m: int)
    requires c >= 1 && m > 0
    ensures c * m >= m
  {
    assert c * m == (c - 1) * m + m;
  }

  /** The remainder is fixed by any quotient that leaves a remainder in range. */
  lemma ModByQuotient(x: int, m: int, q: int, r: int)
    requires m > 0 && 0 <= r < m && x == q * m + r
    ensures x % m == r
  {
    var q', r' := x / m, x % m;
    assert x == q' * m + r' && 0 <= r' < m;
    assert (q' - q) * m == q' * m - q * m;
    if q' > q {
      MulAtLeast(q' - q, m);
    } else if q' < q {
      assert (q - q') * m == q * m - q' * m;
      MulAtLeast(q - q', m);
    }
  }

  /** `(n + len) % len`, the index `show(n)` moves to. */
  function Wrap(n: int, len: int): (r: int)
    requires len > 0
    ensures n + len >= 0 ==> 0 <= r < len
    ensures (n - r) % len == 0
  {
    var x := n + len - JsRem(n + len, len);
    ModByQuotient(x - len, len, x / len - 1, 0);
    JsRem(n + len, len)
  }

  /** The index `next()` moves to from `i`. */
  function NextIndex(i: int, len: int): (r: int)
    requires len > 0
    ensures i >= -1 ==> 0 <= r < len
  {
    Wrap(i + 1, len)
  }

  /** The index `prev()` moves to from `i`. */
  function PrevIndex(i: int, len: int): (r: int)
    requires len > 0
    ensures i >= 1 - len ==> 0 <= r < len
  {
    Wrap(i - 1, len)
  }

  /** Both buttons stay within the slides and wrap around at the ends; one undoes the other. */
  lemma NavigationWraps(i: int, len: int)
    requires 0 <= i < len
    ensures 0 <= NextIndex(i, len) < len && 0 <= PrevIndex(i, len) < len
    ensures NextIndex(i, len) == (if i == len - 1 then 0 else i + 1)
    ensures PrevIndex(i, len) == (if i == 0 then len - 1 else i - 1)
    ensures PrevIndex(NextIndex(i, len), len) == i && NextIndex(PrevIndex(i, len), len) == i
  {
    if i == len - 1 {
      ModByQuotient(i + 1 + len, len, 2, 0);
      ModByQuotient(0 - 1 + len, len, 0, len - 1);
    } else {
      ModByQuotient(i + 1 + len, len, 1, i + 1);
      ModByQuotient(i + 1 - 1 + len, len, 1, i);
    }
    if i == 0 {
      ModByQuotient(i - 1 + len, len, 0, len - 1);
      ModByQuotient(len - 1 + 1 + len, len, 2, 0);
    } else {
      ModByQuotient(i - 1 + len, len, 1, i - 1);
      ModByQuotient(i - 1 + 1 + len, len, 1, i);
    }
  }

  /** The index after pressing "next" `k` times from `i`. */
  function NextTimes(i: int, len: int, k: nat): int
    requires len > 0
  {
    if k == 0 then i else NextIndex(NextTimes(i, len, k - 1), len)
  }

  lemma NextIndexOfRemainder(a: nat, len: int)
    requires len > 0
    ensures NextIndex(a % len, len) == (a + 1) % len
  {
    var q, j := a / len, a % len;
    assert a == q * len + j && 0 <= j < len;
    NavigationWraps(j, len);
    if j == len - 1 {
      assert (q + 1) * len == q * len + len;
      ModByQuotient(a + 1, len, q + 1, 0);
    } else {
      ModByQuotient(a + 1, len, q, j + 1);
    }
  }

  lemma {:induction false} NextTimesIsOffset(i: int, len: int, k: nat)
    requires 0 <= i < len
    ensures NextTimes(i, len, k) == (i + k) % len
  {
    if k == 0 {
      ModByQuotient(i, len, 0, i);
    } else {
      NextTimesIsOffset(i, len, k - 1);
      NextIndexOfRemainder(i + k - 1, len);
    }
  }

  /** Pressing "next" once per slide comes back to the slide one started on. */
  lemma NextCycle(i: int, len: int)
    requires 0 <= i < len
    ensures NextTimes(i, len, len) == i
  {
    NextTimesIsOffset(i, len, len);
    ModByQuotient(i + len, len, 1, i);
  }

  /**
   * The public page's script: `idx` and the `active` class of each `.carousel-item`.
   * A page with no items has no slides (and no buttons).
   */
  class Slideshow {
    const count: nat
    var idx: int
    var active: array<bool>

    ghost predicate Valid()
      reads this, active
    {
      active.Length == count &&
      (count == 0 ==> idx == 0) &&
      (count > 0 ==> 0 <= idx < count && forall k :: 0 <= k < count ==> (active[k] <==> k == idx))
    }

    /** The page as loaded: `idx = 0` and only the first item carries the `active` class. */
    constructor (count: nat)
      ensures Valid() && fresh(active) && this.count == count && idx == 0
    {
      this.count := count;
      idx := 0;
      active := new bool[count](k => k == 0);
    }

    /** `show(n)`; its callers pass `idx - 1` or `idx + 1`, never below `-items.length`. */
    method Show(n: int)
      requires Valid()
      requires count == 0 || n + count >= 0
      modifies this, active
      ensures Valid() && active == old(active)
      ensures count == 0 ==> idx == old(idx) && active[..] == old(active[..])
      ensures count > 0 ==> idx == Wrap(n, count)
    {
      if count == 0 {
        return;
      }
      active[idx] := false;
      idx := Wrap(n, count);
      active[idx] := true;
    }

    /** `prev()` */
    method Prev()
      requires Valid()
      modifies this, active
      ensures Valid() && active == old(active)
      ensures count > 0 ==> idx == PrevIndex(old(idx), count)
      ensures count == 0 ==> active[..] == old(active[..])
    {
      Show(idx - 1);
    }

    /** `next()` */
    method Next()
      requires Valid()
      modifies this, active
      ensures Valid() && active == old(active)
      ensures count > 0 ==> idx == NextIndex(old(idx), count)
      ensures count == 0 ==> active[..] == old(active[..])
    {
      Show(idx + 1);
    }
  }
}
