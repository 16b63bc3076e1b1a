/**
 * The image component with a fallback
 * (client/src/components/common/ImageWithFallback.jsx): two flags record
 * whether the source and then the fallback failed, and the render shows
 * the source, the fallback, or a text placeholder.
 */
module ImageWithFallback {
  import opened Js

  /** The props the component reads. */
  datatype Props = Props(src: Option<string>, fallbackSrc: Option<string>, alt: Option<string>, placeholderText: Option<string>)

  /** The component's state: `error` and `fallbackError`. */
  datatype Flags = Flags(error: bool, fallbackError: bool)

  const Initial := Flags(false, false)

  const Unavailable := "Image unavailable"

  /** What the component renders: the placeholder box with its text, or an img with its `src`. */
  datatype View = Placeholder(text: string) | Image(src: Option<string>)

  /** The flags as the component can reach them: a failed fallback implies a failed source. */
  predicate Reachable(f: Flags)
  {
    f.fallbackError ==> f.error
  }

  /** `handleError`: the first error marks the source failed, any later one the fallback. */
  function HandleError(f: Flags): (r: Flags)
    ensures Reachable(f) ==> Reachable(r)
    ensures (f.error ==> r.error) && (f.fallbackError ==> r.fallbackError)
    ensures !f.error ==> r == Flags(true, f.fallbackError)
    ensures f.error ==> r == Flags(true, true)
  {
    if !f.error then f.(error := true) else f.(fallbackError := true)
  }

  /** The placeholder's text: `placeholderText || alt || 'Image unavailable'`. */
  function PlaceholderText(p: Props): (t: string)
    ensures t != []
    ensures Truthy(p.placeholderText) ==> t == p.placeholderText.value
    ensures !Truthy(p.placeholderText) && Truthy(p.alt) ==> t == p.alt.value
    ensures !Truthy(p.placeholderText) && !Truthy(p.alt) ==> t == Unavailable
  {
    Or(p.placeholderText, Or(p.alt, Unavailable))
  }

  /** The render choice. */
  function Render(p: Props, f: Flags): (v: View)
    ensures v.Placeholder? <==> f.fallbackError || (!Truthy(p.src) && !Truthy(p.fallbackSrc))
    ensures v.Placeholder? ==> v.text == PlaceholderText(p)
    ensures v.Image? ==> v.src == (if f.error then p.fallbackSrc else p.src)
  {
    if f.fallbackError || (!Truthy(p.src) && !Truthy(p.fallbackSrc)) then Placeholder(PlaceholderText(p))
    else Image(if f.error then p.fallbackSrc else p.src)
  }

  /** The flags after `n` error events from the initial state. */
  function AfterErrors(n: nat): (f: Flags)
    ensures Reachable(f)
  {
    if n == 0 then Initial else HandleError(AfterErrors(n - 1))
  }

  /**
   * The sequence of views: the source first (when there is one to show),
   * the fallback after one error, the placeholder from the second error on;
   * further errors change nothing.
   */
  lemma {:induction false} ErrorSequence(p: Props, n: nat)
    ensures n == 0 ==> AfterErrors(n) == Initial
    ensures n == 1 ==> AfterErrors(n) == Flags(true, false)
    ensures n >= 2 ==> AfterErrors(n) == Flags(true, true)
    ensures n >= 2 ==> Render(p, AfterErrors(n)) == Placeholder(PlaceholderText(p))
  {
    if n >= 2 {
      ErrorSequence(p, n - 1);
    }
  }

  /** Initially the img shows `src`, unless neither source is present. */
  lemma InitialShowsSource(p: Props)
    requires Truthy(p.src) || Truthy(p.fallbackSrc)
    ensures Render(p, Initial) == Image(p.src)
  {
  }

  /** After the first error the img shows `fallbackSrc`. */
  lemma FirstErrorShowsFallback(p: Props)
    requires Truthy(p.src) || Truthy(p.fallbackSrc)
    ensures Render(p, HandleError(Initial)) == Image(p.fallbackSrc)
  {
  }
}
