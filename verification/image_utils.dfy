/**
 * Image helpers (client/src/utils/image.utils.js): the placeholder URL and
 * the `onerror` handler that falls back from an image's source to a
 * fallback URL and then to a placeholder.
 *
 * Two pieces of the browser are parameters: `encode` is
 * `encodeURIComponent`, and `resolve` is URL parsing against the
 * document's base URL. An img element's `src` property reflects its
 * content attribute as a resolved URL, so writing `u` and reading `src`
 * back yields `resolve(u)`, which differs from `u` for a relative URL.
 */
module ImageUtils {
  import opened Js

  const PlaceholderHost := "https://via.placeholder.com/"
  const DefaultText := "Image"
  const DefaultWidth := 400
  const DefaultHeight := 300

  // ---------------------------------------------------------------------
  // Decimal text of a number
  // ---------------------------------------------------------------------

  predicate IsDigit(c: char)
  {
    '0' <= c <= '9'
  }

  predicate AllDigits(s: string)
  {
    forall i :: 0 <= i < |s| ==> IsDigit(s[i])
  }

  /** The decimal text of `n`, as a template literal renders a whole number. */
  function DecimalString(n: nat): (s: string)
    ensures |s| >= 1 && AllDigits(s)
    ensures |s| > 1 ==> s[0] != '0'
  {
    if n < 10 then [('0' as int + n) as char]
    else DecimalString(n / 10) + [('0' as int + n % 10) as char]
  }

  /** The number a string of decimal digits denotes. */
  function DecimalValue(s: string): nat
    requires AllDigits(s)
  {
    if s == [] then 0
    else DecimalValue(s[..|s| - 1]) * 10 + (s[|s| - 1] as int - '0' as int)
  }

  /** Reading the decimal text back gives the number. */
  lemma {:induction false} DecimalRoundTrip(n: nat)
    ensures DecimalValue(DecimalString(n)) == n
  {
    if n >= 10 {
      var s := DecimalString(n);
      assert s[..|s| - 1] == DecimalString(n / 10);
      DecimalRoundTrip(n / 10);
    }
  }

  /** Different numbers have different decimal texts. */
  lemma DecimalStringInjective(m: nat, n: nat)
    requires DecimalString(m) == DecimalString(n)
    ensures m == n
  {
    DecimalRoundTrip(m);
    DecimalRoundTrip(n);
  }

  // ---------------------------------------------------------------------
  // createPlaceholderImage
  // ---------------------------------------------------------------------

  /** A parameter with a default: the default applies when the argument is `undefined`. */
  function Default<T>(arg: Option<T>, default: T): T
  {
    if arg.Some? then arg.value else default
  }

  /**
   * `createPlaceholderImage(text, width, height)`: the host, then
   * `<width>x<height>?text=`, then the encoded text, with the defaults
   * 'Image', 400 and 300.
   */
  function PlaceholderUrl(text: Option<string>, width: Option<nat>, height: Option<nat>, encode: string -> string): (url: string)
    ensures |url| > |PlaceholderHost| && url[..|PlaceholderHost|] == PlaceholderHost
  {
    PlaceholderHost + (DecimalString(Default(width, DefaultWidth))
      + ("x" + (DecimalString(Default(height, DefaultHeight)) + ("?" + ("text=" + encode(Default(text, DefaultText)))))))
  }

  /** The placeholder URL after the host, grouped at its two separators. */
  lemma PlaceholderUrlShape(text: Option<string>, width: Option<nat>, height: Option<nat>, encode: string -> string)
    ensures PlaceholderUrl(text, width, height, encode)[|PlaceholderHost|..]
         == DecimalString(Default(width, DefaultWidth))
            + (['x'] + (DecimalString(Default(height, DefaultHeight)) + (['?'] + ("text=" + encode(Default(text, DefaultText))))))
  {
    var dw, dh, e := DecimalString(Default(width, DefaultWidth)), DecimalString(Default(height, DefaultHeight)), encode(Default(text, DefaultText));
    var rest := dw + (['x'] + (dh + (['?'] + ("text=" + e))));
    assert (PlaceholderHost + rest)[|PlaceholderHost|..] == rest;
  }

  /** A string of digits holds no `sep` that is not a digit. */
  lemma DigitsLackSeparator(s: string, sep: char)
    requires AllDigits(s) && !IsDigit(sep)
    ensures forall i :: 0 <= i < |s| ==> s[i] != sep
  {
  }

  /** The position of the first `sep` in `s`, or `|s|` when there is none. */
  function IndexOf(s: string, sep: char): (k: nat)
    ensures k <= |s|
  {
    if s == [] then 0
    else if s[0] == sep then 0
    else 1 + IndexOf(s[1..], sep)
  }

  /** After a prefix free of `sep`, the first `sep` is the one that follows it. */
  lemma {:induction false} IndexOfAfterPrefix(a: string, c: string, sep: char)
    requires forall i :: 0 <= i < |a| ==> a[i] != sep
    ensures IndexOf(a + ([sep] + c), sep) == |a|
  {
    if a != [] {
      var s := a + ([sep] + c);
      assert s[0] == a[0];
      assert s[1..] == a[1..] + ([sep] + c);
      IndexOfAfterPrefix(a[1..], c, sep);
    }
  }

  /** Two strings free of `sep`, each followed by `sep`, line up at the first `sep`. */
  lemma SplitAtSeparator(a: string, c: string, b: string, d: string, sep: char)
    requires forall i :: 0 <= i < |a| ==> a[i] != sep
    requires forall i :: 0 <= i < |b| ==> b[i] != sep
    requires a + ([sep] + c) == b + ([sep] + d)
    ensures a == b && c == d
  {
    var s := a + ([sep] + c);
    IndexOfAfterPrefix(a, c, sep);
    IndexOfAfterPrefix(b, d, sep);
    assert a == s[..|a|];
    assert c == s[|a| + 1..];
  }

  /**
   * The placeholder URL determines its parameters: equal URLs come from the
   * same width, the same height and the same encoded text.
   */
  lemma PlaceholderUrlDetermines(t1: Option<string>, w1: Option<nat>, h1: Option<nat>,
                                 t2: Option<string>, w2: Option<nat>, h2: Option<nat>, encode: string -> string)
    requires PlaceholderUrl(t1, w1, h1, encode) == PlaceholderUrl(t2, w2, h2, encode)
    ensures Default(w1, DefaultWidth) == Default(w2, DefaultWidth)
    ensures Default(h1, DefaultHeight) == Default(h2, DefaultHeight)
    ensures encode(Default(t1, DefaultText)) == encode(Default(t2, DefaultText))
  {
    var dw1, dh1, e1 := DecimalString(Default(w1, DefaultWidth)), DecimalString(Default(h1, DefaultHeight)), encode(Default(t1, DefaultText));
    var dw2, dh2, e2 := DecimalString(Default(w2, DefaultWidth)), DecimalString(Default(h2, DefaultHeight)), encode(Default(t2, DefaultText));
    PlaceholderUrlShape(t1, w1, h1, encode);
    PlaceholderUrlShape(t2, w2, h2, encode);
    DigitsLackSeparator(dw1, 'x');
    DigitsLackSeparator(dw2, 'x');
    SplitAtSeparator(dw1, dh1 + (['?'] + ("text=" + e1)), dw2, dh2 + (['?'] + ("text=" + e2)), 'x');
    DigitsLackSeparator(dh1, '?');
    DigitsLackSeparator(dh2, '?');
    SplitAtSeparator(dh1, "text=" + e1, dh2, "text=" + e2, '?');
    assert e1 == ("text=" + e1)[5..];
    assert e2 == ("text=" + e2)[5..];
    DecimalStringInjective(Default(w1, DefaultWidth), Default(w2, DefaultWidth));
    DecimalStringInjective(Default(h1, DefaultHeight), Default(h2, DefaultHeight));
  }

  // ---------------------------------------------------------------------
  // handleImageError
  // ---------------------------------------------------------------------

  /** An img element: its `src` attribute as last written, and whether `onerror` is still set. */
  datatype Img = Img(attr: string, attached: bool)

  /**
   * `handleImageError(event, fallbackUrl, entityName)` as written: when the
   * fallback is falsy or `element.src` (the resolved URL) equals the raw
   * fallback URL, the placeholder is shown and the handler detached;
   * otherwise the fallback is tried.
   */
  function HandleImageError(img: Img, fallbackUrl: Option<string>, entityName: Option<string>,
                            resolve: string -> string, encode: string -> string): (r: Img)
    ensures !Truthy(fallbackUrl) ==> !r.attached && r.attr == PlaceholderUrl(entityName, None, None, encode)
    ensures Truthy(fallbackUrl) ==>
              (r.attached <==> resolve(img.attr) != fallbackUrl.value)
    ensures r.attached ==> r.attr == fallbackUrl.value
    ensures !r.attached ==> r.attr == PlaceholderUrl(entityName, None, None, encode)
  {
    if !Truthy(fallbackUrl) || resolve(img.attr) == fallbackUrl.value then
      Img(PlaceholderUrl(entityName, None, None, encode), false)
    else Img(fallbackUrl.value, true)
  }

  /**
   * The handler as evidently intended: "already tried the fallback" is
   * judged on resolved URLs, so the comparison holds once the fallback has
   * been written, whatever form its URL takes.
   */
  function HandleImageErrorFixed(img: Img, fallbackUrl: Option<string>, entityName: Option<string>,
                                 resolve: string -> string, encode: string -> string): (r: Img)
    ensures !Truthy(fallbackUrl) ==> !r.attached && r.attr == PlaceholderUrl(entityName, None, None, encode)
    ensures Truthy(fallbackUrl) ==>
              (r.attached <==> resolve(img.attr) != resolve(fallbackUrl.value))
    ensures r.attached ==> r.attr == fallbackUrl.value
    ensures !r.attached ==> r.attr == PlaceholderUrl(entityName, None, None, encode)
  {
    if !Truthy(fallbackUrl) || resolve(img.attr) == resolve(fallbackUrl.value) then
      Img(PlaceholderUrl(entityName, None, None, encode), false)
    else Img(fallbackUrl.value, true)
  }

  /**
   * The element after `n` more load errors: each error runs the handler
   * while it is attached, and nothing once it is detached.
   */
  function AfterErrors(img: Img, n: nat, fixed: bool, fallbackUrl: Option<string>, entityName: Option<string>,
                       resolve: string -> string, encode: string -> string): (r: Img)
    ensures !img.attached ==> r == img
    decreases n
  {
    if n == 0 || !img.attached then img
    else
      var next := if fixed then HandleImageErrorFixed(img, fallbackUrl, entityName, resolve, encode)
                  else HandleImageError(img, fallbackUrl, entityName, resolve, encode);
      AfterErrors(next, n - 1, fixed, fallbackUrl, entityName, resolve, encode)
  }

  /**
   * As written, the handler terminates when the fallback URL reads back
   * unchanged (an absolute, normalized URL): at most two errors before it
   * is detached.
   */
  lemma AbsoluteFallbackDetaches(img: Img, fallbackUrl: Option<string>, entityName: Option<string>,
                                 resolve: string -> string, encode: string -> string)
    requires Truthy(fallbackUrl) ==> resolve(fallbackUrl.value) == fallbackUrl.value
    ensures !AfterErrors(img, 2, false, fallbackUrl, entityName, resolve, encode).attached
  {
    if img.attached {
      var next := HandleImageError(img, fallbackUrl, entityName, resolve, encode);
      if next.attached {
        assert AfterErrors(next, 1, false, fallbackUrl, entityName, resolve, encode)
            == HandleImageError(next, fallbackUrl, entityName, resolve, encode);
      }
    }
  }

  /**
   * As written, a fallback URL that does not read back as itself (a relative
   * URL, say) is never recognised as already tried: from any source that
   * is not the fallback, the handler stays attached after every error and
   * keeps rewriting the fallback.
   */
  lemma {:induction false} RelativeFallbackNeverDetaches(img: Img, n: nat, fallbackUrl: Option<string>, entityName: Option<string>,
                                                         resolve: string -> string, encode: string -> string)
    requires Truthy(fallbackUrl) && resolve(fallbackUrl.value) != fallbackUrl.value
    requires img.attached && resolve(img.attr) != fallbackUrl.value
    ensures AfterErrors(img, n, false, fallbackUrl, entityName, resolve, encode).attached
    decreases n
  {
    if n > 0 {
      var next := HandleImageError(img, fallbackUrl, entityName, resolve, encode);
      assert next == Img(fallbackUrl.value, true);
      RelativeFallbackNeverDetaches(next, n - 1, fallbackUrl, entityName, resolve, encode);
    }
  }

  /**
   * A concrete loop: on a page served from https://wanderquest.app, an image
   * at https://cdn.example.com/paris.jpg that fails, with the fallback
   * "/images/fallback.png" that fails too, still has its handler after
   * three errors (and after any number).
   */
  lemma RelativeFallbackLoops(encode: string -> string)
    ensures var resolve := (u: string) => if u == "/images/fallback.png" then "https://wanderquest.app/images/fallback.png" else u;
            AfterErrors(Img("https://cdn.example.com/paris.jpg", true), 3, false, Some("/images/fallback.png"), None, resolve, encode).attached
  {
    var resolve := (u: string) => if u == "/images/fallback.png" then "https://wanderquest.app/images/fallback.png" else u;
    RelativeFallbackNeverDetaches(Img("https://cdn.example.com/paris.jpg", true), 3, Some("/images/fallback.png"), None, resolve, encode);
  }

  /**
   * With the comparison on resolved URLs, every element is detached after at
   * most two errors, whatever URL resolution does: the process terminates.
   */
  lemma FixedHandlerDetaches(img: Img, fallbackUrl: Option<string>, entityName: Option<string>,
                             resolve: string -> string, encode: string -> string)
    ensures !AfterErrors(img, 2, true, fallbackUrl, entityName, resolve, encode).attached
  {
    if img.attached {
      var next := HandleImageErrorFixed(img, fallbackUrl, entityName, resolve, encode);
      if next.attached {
        assert AfterErrors(next, 1, true, fallbackUrl, entityName, resolve, encode)
            == HandleImageErrorFixed(next, fallbackUrl, entityName, resolve, encode);
      }
    }
  }

  /** Once detached, the element shows the placeholder for the entity. */
  lemma DetachedShowsPlaceholder(img: Img, n: nat, fixed: bool, fallbackUrl: Option<string>, entityName: Option<string>,
                                 resolve: string -> string, encode: string -> string)
    requires img.attached
    requires !AfterErrors(img, n, fixed, fallbackUrl, entityName, resolve, encode).attached
    ensures AfterErrors(img, n, fixed, fallbackUrl, entityName, resolve, encode).attr == PlaceholderUrl(entityName, None, None, encode)
    decreases n
  {
    var next := if fixed then HandleImageErrorFixed(img, fallbackUrl, entityName, resolve, encode)
                else HandleImageError(img, fallbackUrl, entityName, resolve, encode);
    if next.attached {
      DetachedShowsPlaceholder(next, n - 1, fixed, fallbackUrl, entityName, resolve, encode);
    }
  }
}
