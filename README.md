# Voice Distribution Plotter — a Dafny model of its name handling

The application draws the probability density and cumulative distribution of
one of six fixed distributions (uniform, Rayleigh, binomial, Poisson,
Laplacian, Gaussian). A name arrives either in a JSON request (`get_pdf`) or
from speech (`speech_to_pdf`): the spoken transcript is lowercased and scanned
for the first entry of an ordered alias table ("really" and "raili" for
rayleigh, "pois" and "poison" for poisson, and so on). This project models the
logic that decides what gets drawn:

- `text.dfy` (module `Text`): ASCII `str.lower()` and Python's substring test
  `pat in text`, as a specification (`Occurs`) and an executable scan
  (`Contains`) proved equal.
- `distributions.dfy` (module `Distributions`): the six distributions, the
  `if/elif/else` name dispatch of `generate_pdf_cdf`, the sample domain of
  each branch, the bar/step versus line/fill plotting split, and the chart
  descriptor (`Chart`) that stands for the returned image.
- `uniform.dfy` (module `UniformDist`): the uniform density and CDF with
  a = 0 and b = 5 as exact functions over the reals.
- `aliases.dfy` (module `Aliases`): the alias table, the first-match search
  as a specification function (`FirstMatch`) and as the source's loop
  (`FindAlias`), `recognize_distribution` with transcription as an input,
  and the properties of the table.
- `handlers.dfy` (module `Handlers`): the reply logic of `get_pdf` and
  `speech_to_pdf`.
- `wrappers.dfy` (module `Wrappers`): `Option`, for Python's `None`.

The central cross-component fact: every name the alias search can return is
accepted by the dispatch, so `speech_to_pdf` answers with its error exactly
when transcription failed or no alias occurs in the transcript.

## Model

| member | source | states |
|---|---|---|
| `Text.Lower` | app.py:85 | lowercasing keeps the length and folds each character on its own |
| `Text.LowerIsLower` | app.py:130 | a lowercased string has no ASCII capital left |
| `Text.LowerFixesLower` | app.py:130 | lowercasing leaves a string without capitals unchanged (so canonical names are fixed points) |
| `Text.LowerIdempotent` | app.py:130 | lowercasing twice is lowercasing once |
| `Text.Contains` | app.py:108 | the executable scan answers true exactly when the alias is a contiguous substring of the text |
| `Text.OccursInTail` | app.py:108 | when the alias is not at the front, it occurs in the text iff it occurs in the text without its first character |
| `Text.OccursEmpty` | app.py:108 | the empty string is in every text; the empty text holds only the empty string |
| `Text.OccursTransitive` | app.py:108 | a substring of a substring of the text is a substring of the text |
| `Text.CharPinsOccurrence` | app.py:108 | an alias is absent when one of its characters appears in the text only where the alias cannot fit |
| `Distributions.NameInjective` | app.py:16-54 | the six branches test six different names |
| `Distributions.Parse` | app.py:16-58 | the dispatch accepts exactly the six canonical lowercase names, each reaching the branch of the distribution it names, and every other string reaches the `else` |
| `Distributions.ParseName` | app.py:16-54 | each distribution's name reaches that distribution's branch |
| `Distributions.IntRange` | app.py:30 | `np.arange(lo, hi)` is the hi - lo consecutive integers from lo |
| `Distributions.DomainShapes` | app.py:16-54 | discrete distributions are sampled at integer points, continuous ones on 400-point grids; binomial at 0..20 (21 points), Poisson at 0..19 (20 points); the uniform grid runs from a - 2 to b + 2 |
| `Distributions.Render` | app.py:13-75 | a chart is produced exactly for the six canonical names, for the distribution named and over its domain; every other name gives None |
| `Distributions.StyleSplit` | app.py:28-63 | every chart draws exactly one style: bar and step for binomial and Poisson, line and fill for the other four |
| `UniformDist.Pdf` | app.py:19 | the density is positive exactly on [a, b], where it equals 1/(b - a), and never negative |
| `UniformDist.Cdf` | app.py:20 | the CDF lies in [0, 1], is 0 up to a and 1 from b on |
| `UniformDist.CdfEndpoints` | app.py:17-20 | cdf(a) = 0 and cdf(b) = 1 |
| `UniformDist.CdfMonotone` | app.py:20 | the CDF never decreases |
| `UniformDist.CdfIntegratesPdf` | app.py:19-20 | between x <= y the CDF grows by the density times the length of [x, y] inside [a, b], i.e. it is the integral of the density |
| `UniformDist.CdfStrictOnSupport` | app.py:20 | inside [a, b] the CDF strictly increases |
| `Aliases.FirstMatch` | app.py:106-111 | the search answers with the canonical name of an entry whose alias occurs and no earlier alias does, and with None exactly when no alias occurs |
| `Aliases.FindAlias` | app.py:107-111 | the loop with its early return computes exactly the first-match specification over the 14-entry table |
| `Aliases.Recognize` | app.py:77-120 | a failed capture or transcription gives None; otherwise the lowercased transcript resolves to the first matching entry's name, None exactly when no alias occurs |
| `Aliases.CanonicalNamesAreAliases` | app.py:89-104 | each of the six canonical names is itself an alias in the table, mapped to itself |
| `Aliases.TableTargetsCanonical` | app.py:89-104 | every table entry maps to a name the dispatch accepts |
| `Aliases.TableWellFormed` | app.py:89-104 | the 14 aliases are non-empty and pairwise distinct, as dictionary keys |
| `Aliases.ResolvedNameIsCanonical` | app.py:89-111 | whatever the search returns is accepted by `generate_pdf_cdf`, never reaching its `else` |
| `Aliases.CanonicalNameResolves` | app.py:89-111 | text containing one of the six canonical names always resolves to some name |
| `Aliases.EmptyTextUnresolved` | app.py:89-111 | empty text resolves to None |
| `Aliases.EarlierEntryWins` | app.py:107-109 | when an entry's alias occurs, the answer comes from that entry or an earlier one |
| `Aliases.FirstMatchAt` | app.py:107-109 | when an entry is the first whose alias occurs, the answer is its canonical name |
| `Aliases.UniformBeforePoisson` | app.py:90-109 | text holding both "uniform" and "poisson" resolves to "uniform" |
| `Aliases.ShadowedEntryNeverFirst` | app.py:107-109 | an entry whose alias contains an earlier entry's alias is never the first match |
| `Aliases.DropShadowed` | app.py:107-109 | removing an entry whose alias contains an earlier entry's alias changes no answer of the search |
| `Aliases.ShadowedAliases` | app.py:96-101 | the "poison" and "laplacian" entries are never the first match, and the table without them resolves every text the same way |
| `Aliases.RailiTranscript` | app.py:89-109 | "i think it's raili" resolves to "rayleigh" |
| `Aliases.PoisonTranscript` | app.py:89-109 | "poison distribution please" resolves to "poisson" through "pois" |
| `Handlers.GetPdf` | app.py:128-134 | an image exactly when the key is present and its lowercase value is a canonical name, drawn for that distribution; otherwise the "Invalid distribution" error |
| `Handlers.GetPdfMissingKey` | app.py:130-134 | a body without the key is rejected |
| `Handlers.GetPdfAnyCase` | app.py:130-133 | a name in any letter case whose lowercase form is canonical draws that distribution in its style over its domain |
| `Handlers.GetPdfUpperCaseExample` | app.py:130-133 | "GAUSSIAN" draws the Gaussian chart |
| `Handlers.GetPdfUnknownExample` | app.py:130-134 | "exponential" gets the "Invalid distribution" error |
| `Handlers.SpeechToPdf` | app.py:137-143 | the "Could not recognize" error exactly when recognition gave None; otherwise the image of the recognised distribution together with its name |
| `Handlers.SpeechErrorOnlyWhenUnresolved` | app.py:138-143 | the error comes only from a failed transcription or a transcript with no alias in it |
| `Handlers.SpeechNamingDistribution` | app.py:138-142 | a transcript naming a distribution, in any case, always draws a chart |

## Left out

- Flask routing, `request.json` and `jsonify`: the handlers are functions from their input to a `Reply`; a request body is a `map<string, string>`, so a body that is not JSON or a non-string `distribution` value (which makes `.lower()` raise) is not modelled.
- Microphone capture and the speech-to-text service, with their exception branches and `print` diagnostics: the transcript is an `Option<string>` input, None standing for every failure.
- matplotlib figure state, the plot calls, titles, labels, PNG bytes and base64: the image is the `Chart` descriptor (distribution, domain, which style was drawn); a PNG is never empty, so `if image_data:` is modelled as the presence of a chart.
- The SciPy binomial, Poisson and normal pmf/pdf/cdf, and the exponential-based Rayleigh and Laplacian formulas: foreign or floating-point numerics. Their domains are modelled, their values are not.
- The 400-point `np.linspace` grids are described by their integer end points and size only; the uniform density and CDF are modelled over the reals rather than at float sample points.
- `Text.Lower`: folds only ASCII capitals; Python's full Unicode `str.lower()` is not modelled.
