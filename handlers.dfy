/**
 * The decision logic of the two HTTP handlers of app.py, `get_pdf` and
 * `speech_to_pdf`, as functions from their input to the JSON reply.
 */
module Handlers {
  import opened Wrappers
  import opened Text
  import opened Distributions
  import Aliases

  /** The JSON replies: `{"image"}`, `{"image", "distribution"}` or `{"error"}`. */
  datatype Reply =
    | Image(chart: Chart)
    | ImageWithName(chart: Chart, distribution: string)
    | Error(message: string)

  const InvalidDistribution: string := "Invalid distribution"
  const NotRecognized: string := "Could not recognize a valid distribution name."

  /** The JSON key `get_pdf` reads. */
  const DistributionKey: string := "distribution"

  /**
   * `get_pdf` on a request body: the requested name (the empty string when the
   * key is missing) is lowercased and rendered; an accepted name gives an
   * image, anything else the "Invalid distribution" error.
   */
  function GetPdf(body: map<string, string>): (r: Reply)
    ensures r.Image? <==> DistributionKey in body && IsCanonical(Lower(body[DistributionKey]))
    ensures r.Image? ==> Name(r.chart.dist) == Lower(body[DistributionKey]) && r.chart.domain == DomainOf(r.chart.dist)
    ensures !r.Image? ==> r == Error(InvalidDistribution)
  {
    var name := Lower(if DistributionKey in body then body[DistributionKey] else "");
    match Render(name)
    case Some(chart) => Image(chart)
    case None => Error(InvalidDistribution)
  }

  /** A body without the key is always rejected. */
  lemma GetPdfMissingKey(body: map<string, string>)
    requires DistributionKey !in body
    ensures GetPdf(body) == Error(InvalidDistribution)
  {
  }

  /** A name in any letter case whose lowercase form is a distribution's name draws that distribution. */
  lemma GetPdfAnyCase(d: Dist, s: string)
    requires Lower(s) == Name(d)
    ensures GetPdf(map[DistributionKey := s]) == Image(Chart(d, DomainOf(d), IsDiscrete(d), !IsDiscrete(d)))
  {
    StyleSplit(d);
  }

  /** "GAUSSIAN" draws the Gaussian chart. */
  lemma GetPdfUpperCaseExample()
    ensures GetPdf(map[DistributionKey := "GAUSSIAN"]).Image?
    ensures GetPdf(map[DistributionKey := "GAUSSIAN"]).chart.dist == Gaussian
  {
    var lowered := Lower("GAUSSIAN");
    forall i | 0 <= i < |lowered|
      ensures lowered[i] == "gaussian"[i]
    {
    }
    GetPdfAnyCase(Gaussian, "GAUSSIAN");
  }

  /** "exponential" is not one of the six and is rejected. */
  lemma GetPdfUnknownExample()
    ensures GetPdf(map[DistributionKey := "exponential"]) == Error(InvalidDistribution)
  {
    LowerFixesLower("exponential");
    assert Parse("exponential").None?;
  }

  /**
   * `speech_to_pdf` on the outcome of capture and transcription: a recognised
   * name is rendered and returned with its image; otherwise the error.
   */
  function SpeechToPdf(transcript: Option<string>): (r: Reply)
    ensures r.Error? <==> Aliases.Recognize(transcript).None?
    ensures r.Error? ==> r.message == NotRecognized
    ensures r.ImageWithName? ==>
      r.distribution == Aliases.Recognize(transcript).value &&
      Name(r.chart.dist) == r.distribution && r.chart.domain == DomainOf(r.chart.dist)
    ensures !r.Image?
  {
    var name := Aliases.Recognize(transcript);
    if name.Some? && name.value != "" then
      match Render(name.value)
      case Some(chart) => ImageWithName(chart, name.value)
      case None => Error(NotRecognized)
    else
      Error(NotRecognized)
  }

  /** The "Could not recognize" error is given exactly when transcription failed or found no alias. */
  lemma SpeechErrorOnlyWhenUnresolved(transcript: Option<string>)
    ensures SpeechToPdf(transcript).Error? <==>
      transcript.None? || Aliases.FirstMatch(Aliases.AliasTable, Lower(transcript.value)).None?
  {
  }

  /** A transcript that mentions a distribution by its name, in any case, always draws a chart. */
  lemma SpeechNamingDistribution(d: Dist, text: string)
    requires Occurs(Name(d), Lower(text))
    ensures SpeechToPdf(Some(text)).ImageWithName?
  {
    Aliases.CanonicalNameResolves(d, Lower(text));
  }
}
