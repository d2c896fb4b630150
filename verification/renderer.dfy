/** The card renderer of `server/src/imageService.ts`: look the card up, name the output file,
    build the SVG text overlay from the card's signature settings and the template's size,
    composite it, and log one usage row. The raster work is an oracle (`Imaging`). */
module Renderer {
  import opened Common
  import opened Tables
  import Strings
  import opened Db

  /** Template dimensions as the image library reports them; a missing or zero value falls back. */
  datatype Dimensions = Dimensions(width: Option<int>, height: Option<int>)

  /** A `<tspan>` of the two-line overlay; the em offsets are kept as the literal tokens written out. */
  datatype Tspan = Tspan(x: int, dy: string, fontSize: string, bold: bool, text: string)

  /** The content of the overlay's `<text>`: the name alone, or a greeting line above the name. */
  datatype TextContent = NameOnly(text: string) | GreetingAndName(upper: Tspan, lower: Tspan)

  /** The SVG overlay: its canvas and view box, the `.signature` style, and the anchored `<text>`. */
  datatype Overlay = Overlay(
    width: int,
    height: int,
    viewBox: seq<int>,
    fill: string,
    fontSizePx: int,
    fontFamily: seq<string>,
    fontWeight: string,
    x: int,
    y: int,
    textAnchor: string,
    content: TextContent,
    top: int,
    left: int)

  /** The image library: `metadata` reads a template's size (`None` when it cannot be read), and
      `composite` says whether drawing that overlay on that template and writing the PNG succeeds.
      The overlay's text goes into the SVG unescaped, so its success may depend on the text too. */
  datatype Imaging = Imaging(metadata: string -> Option<Dimensions>, composite: (string, Overlay) -> bool)

  /** A successful render: the generated file's name, the template it was drawn on, the overlay,
      and the store after logging the usage. */
  datatype Rendered = Rendered(filename: string, template: string, overlay: Overlay, store: Store)

  /** Why a render throws: "Card not found", or a failure inside the image library. */
  datatype RenderError = CardNotFound | ImageFailure

  const FallbackWidth := 1080
  const FallbackHeight := 1920

  /** `card_<id>_<timestamp>.png`. */
  function Filename(cardId: int, now: nat): string {
    "card_" + Strings.IntToDecimal(cardId) + "_" + Strings.NatToDecimal(now) + ".png"
  }

  /** Equal strings with equal prefixes have equal remainders. */
  lemma CancelPrefix(p: string, x: string, y: string)
    requires p + x == p + y
    ensures x == y
  {
    assert x == (p + x)[|p|..];
  }

  /** Equal strings with equal suffixes have equal beginnings. */
  lemma CancelSuffix(x: string, y: string, q: string)
    requires x + q == y + q
    ensures x == y
  {
    assert x == (x + q)[..|x|];
  }

  /** The file name regrouped as prefix, id, separator, and the rest. */
  lemma FilenameShape(a: int, t: nat)
    ensures Filename(a, t) == "card_" + (Strings.IntToDecimal(a) + ['_'] + (Strings.NatToDecimal(t) + ".png"))
  {
  }

  /** The text before the first separator is determined by the whole string. */
  lemma HeadBeforeSeparator(x: string, y: string, x': string, y': string)
    requires '_' !in x && '_' !in x'
    requires x + ['_'] + y == x' + ['_'] + y'
    ensures x == x' && y == y'
  {
    Strings.SplitAtFirst(x, y, '_');
    Strings.SplitAtFirst(x', y', '_');
    assert Strings.Split(x + ['_'] + y, '_')[0] == x;
    CancelPrefix(x + ['_'], y, y');
  }

  /** Two renders with a different card id or timestamp never write the same file. */
  lemma FilenameInjective(a: int, t: nat, b: int, u: nat)
    requires Filename(a, t) == Filename(b, u)
    ensures a == b && t == u
  {
    var da, db := Strings.IntToDecimal(a), Strings.IntToDecimal(b);
    var na, nb := Strings.NatToDecimal(t), Strings.NatToDecimal(u);
    FilenameShape(a, t);
    FilenameShape(b, u);
    CancelPrefix("card_", da + ['_'] + (na + ".png"), db + ['_'] + (nb + ".png"));
    HeadBeforeSeparator(da, na + ".png", db, nb + ".png");
    Strings.IntToDecimalInjective(a, b);
    CancelSuffix(na, nb, ".png");
    Strings.DecimalRoundTrip(t);
    Strings.DecimalRoundTrip(u);
  }

  /** `metadata.width || 1080`: a missing or zero width falls back. */
  function OrFallback(v: Option<int>, fallback: int): (r: int)
    ensures r != 0 || fallback == 0
    ensures v.Some? && v.value != 0 ==> r == v.value
    ensures v.None? || v.value == 0 ==> r == fallback
  {
    if TruthyNumber(v) then v.value else fallback
  }

  /** The overlay's text: with a truthy greeting, the greeting at 0.8em raised by 0.6em and the name at
      1em, bold, 1.6em below it, both restarting at the card's x; otherwise the name alone. */
  function Content(card: CardData, userName: string, greeting: Option<string>): (c: TextContent)
    ensures TruthyText(greeting) <==> c.GreetingAndName?
    ensures c.NameOnly? ==> c.text == userName
    ensures c.GreetingAndName? ==>
              && c.upper == Tspan(card.x, "-0.6em", "0.8em", false, greeting.value)
              && c.lower == Tspan(card.x, "1.6em", "1em", true, userName)
  {
    if TruthyText(greeting) then
      GreetingAndName(Tspan(card.x, "-0.6em", "0.8em", false, greeting.value),
                      Tspan(card.x, "1.6em", "1em", true, userName))
    else NameOnly(userName)
  }

  /** The SVG built for one render: as large as the template (or 1080 x 1920 when unknown), text
      centred on the card's (x, y) in its colour, size and font, composited at the top-left corner. */
  function BuildOverlay(card: CardData, dims: Dimensions, userName: string, greeting: Option<string>): (o: Overlay)
    ensures o.width == OrFallback(dims.width, FallbackWidth) && o.height == OrFallback(dims.height, FallbackHeight)
    ensures o.viewBox == [0, 0, o.width, o.height]
    ensures o.x == card.x && o.y == card.y && o.textAnchor == "middle"
    ensures o.fill == card.color && o.fontSizePx == card.size && o.fontWeight == "bold"
    ensures o.fontFamily == [card.font, "sans-serif"]
    ensures o.content == Content(card, userName, greeting)
    ensures o.top == 0 && o.left == 0
  {
    var w := OrFallback(dims.width, FallbackWidth);
    var h := OrFallback(dims.height, FallbackHeight);
    Overlay(w, h, [0, 0, w, h], card.color, card.size, [card.font, "sans-serif"], "bold",
            card.x, card.y, "middle", Content(card, userName, greeting), 0, 0)
  }

  /** `generateSignedCard`: fails on an unknown card (active or not, the lookup ignores `is_active`)
      or when the image library fails; on success the usage row is written after compositing. */
  function GenerateSignedCard(s: Store, cardId: int, userName: string, greeting: Option<string>,
                              now: nat, img: Imaging): (r: Result<Rendered, RenderError>)
    ensures FindCard(s, cardId).None? <==> r == Err(CardNotFound)
    ensures r.Ok? <==> && FindCard(s, cardId).Some?
                       && var card := FindCard(s, cardId).value;
                          && img.metadata(card.imagePath).Some?
                          && img.composite(card.imagePath,
                                           BuildOverlay(card, img.metadata(card.imagePath).value, userName, greeting))
    ensures r.Ok? ==>
              var card := FindCard(s, cardId).value;
              && r.value.filename == Filename(cardId, now)
              && r.value.template == card.imagePath
              && r.value.overlay == BuildOverlay(card, img.metadata(card.imagePath).value, userName, greeting)
              && r.value.store == RecordUsage(s, cardId, userName).store
  {
    match FindCard(s, cardId)
    case None => Err(CardNotFound)
    case Some(card) =>
      var dims := img.metadata(card.imagePath);
      if dims.None? then Err(ImageFailure)
      else
        var overlay := BuildOverlay(card, dims.value, userName, greeting);
        if !img.composite(card.imagePath, overlay) then Err(ImageFailure)
        else Ok(Rendered(Filename(cardId, now), card.imagePath, overlay, RecordUsage(s, cardId, userName).store))
  }

  /** The name reaches the image library: two names give two different overlays. */
  lemma OverlayCarriesName(card: CardData, dims: Dimensions, a: string, b: string, greeting: Option<string>)
    requires a != b
    ensures BuildOverlay(card, dims, a, greeting) != BuildOverlay(card, dims, b, greeting)
  {
    var ca := BuildOverlay(card, dims, a, greeting).content;
    var cb := BuildOverlay(card, dims, b, greeting).content;
    if TruthyText(greeting) {
      assert ca.lower.text != cb.lower.text;
    } else {
      assert ca.text != cb.text;
    }
  }

  /** On the same card, template and clock, an image library that cannot draw one name's SVG (say a
      name holding an unescaped `&`) fails that render while another name still renders. */
  lemma RenderCanFailForOneName(s: Store, cardId: int, a: string, b: string, greeting: Option<string>,
                                now: nat, img: Imaging)
    requires FindCard(s, cardId).Some? && img.metadata(FindCard(s, cardId).value.imagePath).Some?
    requires a != b
    ensures var card := FindCard(s, cardId).value;
            var bad := BuildOverlay(card, img.metadata(card.imagePath).value, b, greeting);
            var lib := Imaging(img.metadata, (t: string, o: Overlay) => o != bad);
            && GenerateSignedCard(s, cardId, a, greeting, now, lib).Ok?
            && GenerateSignedCard(s, cardId, b, greeting, now, lib) == Err(ImageFailure)
  {
    var card := FindCard(s, cardId).value;
    OverlayCarriesName(card, img.metadata(card.imagePath).value, a, b, greeting);
  }

  /** A successful render adds exactly one usage row, for this card and name (the greeting is not
      recorded), and changes nothing else; a failed one changes nothing at all. */
  lemma RenderLogsOnce(s: Store, cardId: int, userName: string, greeting: Option<string>,
                       now: nat, img: Imaging)
    requires Consistent(s)
    ensures var r := GenerateSignedCard(s, cardId, userName, greeting, now, img);
            r.Ok? ==> && r.value.store.usage.rows[..|s.usage.rows|] == s.usage.rows
                      && |r.value.store.usage.rows| == |s.usage.rows| + 1
                      && r.value.store.usage.rows[|s.usage.rows|].data == UsageData(cardId, userName)
                      && r.value.store.usage.rows[|s.usage.rows|].id !in (set u | u in s.usage.rows :: u.id)
                      && r.value.store.cards == s.cards && r.value.store.greetings == s.greetings
                      && Consistent(r.value.store)
  {
  }

  /** Deactivating a card does not stop it from being rendered. */
  lemma InactiveCardStillRenders(s: Store, cardId: int, userName: string, greeting: Option<string>,
                                 now: nat, img: Imaging)
    ensures var s' := UpdateCard(s, cardId, (d: CardData) => d.(active := 0));
            GenerateSignedCard(s, cardId, userName, greeting, now, img).Ok? ==>
            GenerateSignedCard(s', cardId, userName, greeting, now, img).Ok?
  {
    var f := (d: CardData) => d.(active := 0);
    var s' := UpdateCard(s, cardId, f);
    if FindCard(s, cardId).Some? {
      FindAfterUpdate(s.cards, cardId, f);
    }
  }
}
