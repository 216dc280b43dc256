/**
 * The contact page (src/app/contact/page.tsx): the message form's state, the
 * locale choice of each contact person's name and position, and the rewrite of
 * an image asset reference into the file name of the content CDN.
 */
module ContactPage {
  import opened Wrappers
  import opened I18n
  import opened Text
  import opened Types

  /** The four inputs of the form, by their `name` attribute. */
  datatype Field = Name | Email | Phone | Message

  datatype FormData = FormData(name: string, email: string, phone: string, message: string) {

    function Get(f: Field): string
    {
      match f
      case Name => name
      case Email => email
      case Phone => phone
      case Message => message
    }

    /** `{ ...prev, [f]: value }`: the named field takes the value, the other three keep theirs. */
    function With(f: Field, value: string): (r: FormData)
      ensures r.Get(f) == value
      ensures forall g :: g != f ==> r.Get(g) == Get(g)
    {
      match f
      case Name => this.(name := value)
      case Email => this.(email := value)
      case Phone => this.(phone := value)
      case Message => this.(message := value)
    }
  }

  /** All four fields empty. */
  const EmptyForm: FormData := FormData("", "", "", "")

  datatype SubmitStatus = Idle | Success | Error

  class ContactPage {
    const locale: Language
    var contacts: seq<Contact>
    var loading: bool
    var formData: FormData
    var isSubmitting: bool
    var submitStatus: SubmitStatus

    /** The page as first rendered: an empty form, not submitting, status idle, contacts loading. */
    constructor (locale: Language)
      ensures this.locale == locale
      ensures formData == EmptyForm && !isSubmitting && submitStatus == Idle
      ensures forall f :: formData.Get(f) == ""
      ensures contacts == [] && loading
    {
      this.locale := locale;
      contacts := [];
      loading := true;
      formData := EmptyForm;
      isSubmitting := false;
      submitStatus := Idle;
    }

    /** The contact fetch resolved. */
    method LoadSucceeded(result: seq<Contact>)
      modifies this
      ensures contacts == result && !loading
      ensures formData == old(formData) && isSubmitting == old(isSubmitting) && submitStatus == old(submitStatus)
    {
      contacts := result;
      loading := false;
    }

    /** The contact fetch failed: the error is logged (not modelled) and the list stays empty. */
    method LoadFailed()
      modifies this
      ensures contacts == old(contacts) && !loading
      ensures formData == old(formData) && isSubmitting == old(isSubmitting) && submitStatus == old(submitStatus)
    {
      loading := false;
    }

    /** `handleInputChange`: exactly the named field takes the new value. */
    method HandleInputChange(f: Field, value: string)
      modifies this
      ensures formData == old(formData).With(f, value)
      ensures formData.Get(f) == value && forall g :: g != f ==> formData.Get(g) == old(formData).Get(g)
      ensures isSubmitting == old(isSubmitting) && submitStatus == old(submitStatus)
      ensures contacts == old(contacts) && loading == old(loading)
    {
      formData := formData.With(f, value);
    }

    /** The synchronous start of `handleSubmit`, before the simulated delay. */
    method BeginSubmit()
      modifies this
      ensures isSubmitting && submitStatus == Idle
      ensures formData == old(formData) && contacts == old(contacts) && loading == old(loading)
    {
      isSubmitting := true;
      submitStatus := Idle;
    }

    /**
     * The end of `handleSubmit` once the delay settles; `succeeded` says whether the
     * awaited promise resolved. On success the form is emptied, on failure it is kept.
     */
    method CompleteSubmit(succeeded: bool)
      modifies this
      ensures !isSubmitting
      ensures succeeded ==> submitStatus == Success && formData == EmptyForm
      ensures !succeeded ==> submitStatus == Error && formData == old(formData)
      ensures contacts == old(contacts) && loading == old(loading)
    {
      if succeeded {
        submitStatus := Success;
        formData := EmptyForm;
      } else {
        submitStatus := Error;
      }
      isSubmitting := false;
    }

    /** A whole submission: whatever the outcome, it ends not submitting and no longer idle. */
    method HandleSubmit(succeeded: bool)
      modifies this
      ensures !isSubmitting && submitStatus != Idle
      ensures submitStatus == Success <==> succeeded
      ensures succeeded ==> forall f :: formData.Get(f) == ""
      ensures !succeeded ==> formData == old(formData)
      ensures contacts == old(contacts) && loading == old(loading)
    {
      BeginSubmit();
      CompleteSubmit(succeeded);
    }
  }

  /** The heading of a contact card: `locale === 'id' ? contact.name : contact.nameEn`. */
  function DisplayName(l: Language, c: Contact): (r: string)
    ensures l == Id ==> r == c.name
    ensures l == En ==> r == c.nameEn
  {
    Select(l, c.name, c.nameEn)
  }

  /** The position line of a contact card. */
  function DisplayPosition(l: Language, c: Contact): (r: string)
    ensures l == Id ==> r == c.position
    ensures l == En ==> r == c.positionEn
  {
    Select(l, c.position, c.positionEn)
  }

  /** The formats whose extension dash the rewrite turns into a dot, in the order it tries them. */
  const DottedFormats: seq<string> := ["jpg", "png"]

  /** For each format `e` in turn, replace the first `-e` in `s` by `.e`. */
  function DotFormats(s: string, formats: seq<string>): string
    decreases |formats|
  {
    if formats == [] then s
    else DotFormats(ReplaceFirst(s, "-" + formats[0], "." + formats[0]), formats[1..])
  }

  /**
   * The asset reference rewrite as written: drop the first `image-`, then turn the
   * first `-jpg` into `.jpg`, then the first `-png` into `.png`.
   */
  function AssetFileName(ref: string): string
  {
    DotFormats(ReplaceFirst(ref, "image-", ""), DottedFormats)
  }

  /** The index of the last occurrence of `c` in `s`. */
  function LastIndexOfChar(s: string, c: char): (r: Option<nat>)
    ensures r.Some? ==> r.value < |s| && s[r.value] == c && forall i :: r.value < i < |s| ==> s[i] != c
    ensures r.None? ==> forall i :: 0 <= i < |s| ==> s[i] != c
  {
    if s == [] then None
    else if s[|s| - 1] == c then Some(|s| - 1)
    else LastIndexOfChar(s[..|s| - 1], c)
  }

  /** The rewrite as intended: drop the first `image-` and turn the last `-` into `.`, for every format. */
  function AssetFileNameFixed(ref: string): string
  {
    var body := ReplaceFirst(ref, "image-", "");
    match LastIndexOfChar(body, '-')
    case None => body
    case Some(k) => body[..k] + "." + body[k + 1..]
  }

  /** The CDN folder of the project's images, given the project id read from the environment. */
  function ImageFolder(projectId: string): string
  {
    "https://cdn.sanity.io/images/" + projectId + "/production/"
  }

  /** The `src` of a contact photo as the page writes it: the folder, then the rewritten reference. */
  function ImageUrl(projectId: string, ref: string): string
  {
    ImageFolder(projectId) + AssetFileName(ref)
  }

  predicate NoDash(s: string)
  {
    forall i :: 0 <= i < |s| ==> s[i] != '-'
  }

  /**
   * The shape of an image asset reference of the content backend:
   * `image-<id>-<width>x<height>-<format>`, where no part holds a dash and the
   * dimensions start with a digit.
   */
  predicate WellFormedRef(id: string, dims: string, format: string)
  {
    NoDash(id) && NoDash(dims) && NoDash(format) && |dims| > 0 && '0' <= dims[0] <= '9'
  }

  /** A three-letter format name, such as `jpg`, that does not start with a digit. */
  predicate FormatName(e: string)
  {
    |e| == 3 && !('0' <= e[0] <= '9')
  }

  function Ref(id: string, dims: string, format: string): string
  {
    "image-" + id + "-" + dims + "-" + format
  }

  /** The first step removes the leading `image-`. */
  lemma StripImagePrefix(id: string, dims: string, format: string)
    ensures ReplaceFirst(Ref(id, dims, format), "image-", "") == id + "-" + dims + "-" + format
  {
    var ref := Ref(id, dims, format);
    assert OccursAt(ref, "image-", 0);
    assert FirstOccurrence(ref, "image-", 0);
    assert ref[6..] == id + "-" + dims + "-" + format;
  }

  /** In `id-dims-format` the only dashes are the two separators. */
  lemma DashPositions(id: string, dims: string, format: string)
    requires WellFormedRef(id, dims, format)
    ensures var s := id + "-" + dims + "-" + format;
      forall i :: 0 <= i < |s| && s[i] == '-' ==> i == |id| || i == |id| + 1 + |dims|
  {
    var s := id + "-" + dims + "-" + format;
    assert forall i :: 0 <= i < |id| ==> s[i] == id[i];
    assert forall i :: |id| < i < |id| + 1 + |dims| ==> s[i] == dims[i - |id| - 1];
    assert forall i :: |id| + 1 + |dims| < i < |s| ==> s[i] == format[i - |id| - 2 - |dims|];
  }

  /** A `-xyz` pattern can only start at the second separator, and only if the format starts with `xyz`. */
  lemma SuffixPatternAt(id: string, dims: string, format: string, pat: string, i: nat)
    requires WellFormedRef(id, dims, format)
    requires |pat| == 4 && pat[0] == '-' && !('0' <= pat[1] <= '9')
    ensures OccursAt(id + "-" + dims + "-" + format, pat, i) ==>
      i == |id| + 1 + |dims| && |format| >= 3 && format[..3] == pat[1..]
  {
    var s := id + "-" + dims + "-" + format;
    var q := |id| + 1 + |dims|;
    DashPositions(id, dims, format);
    assert s[|id| + 1] == dims[0];
    if i + 4 <= |s| {
      assert s[i] == s[i..i + 4][0] && s[i + 1] == s[i..i + 4][1];
      if i == q {
        assert s[i..i + 4][1..] == format[..3];
      }
    }
  }

  /** `id-dims-format` holds `-e` only when the format starts with `e`. */
  lemma NoOtherFormat(id: string, dims: string, format: string, e: string)
    requires WellFormedRef(id, dims, format) && FormatName(e)
    requires |format| < 3 || format[..3] != e
    ensures !Contains(id + "-" + dims + "-" + format, "-" + e)
  {
    var pat := "-" + e;
    assert pat[1..] == e;
    forall i: nat ensures !OccursAt(id + "-" + dims + "-" + format, pat, i) {
      SuffixPatternAt(id, dims, format, pat, i);
    }
  }

  /** Once the format's dash has become a dot, no `-e` is left to rewrite. */
  lemma NoFormatAfterDot(id: string, dims: string, format: string, e: string)
    requires WellFormedRef(id, dims, format) && FormatName(e)
    ensures !Contains(id + "-" + dims + "." + format, "-" + e)
  {
    var s := id + "-" + dims + "." + format;
    var pat := "-" + e;
    assert pat[0] == '-' && pat[1] == e[0];
    assert forall i :: 0 <= i < |id| ==> s[i] == id[i];
    assert forall i :: |id| < i < |id| + 1 + |dims| ==> s[i] == dims[i - |id| - 1];
    assert forall i :: |id| + 1 + |dims| < i < |s| ==> s[i] == format[i - |id| - 2 - |dims|];
    assert s[|id| + 1] == dims[0] && s[|id| + 1 + |dims|] == '.';
    forall i: nat | i <= |s| ensures !OccursAt(s, pat, i) {
      if i + 4 <= |s| {
        assert s[i] == s[i..i + 4][0] && s[i + 1] == s[i..i + 4][1];
      }
    }
  }

  /** Replacing `-format` by `.format` in `id-dims-format` dots exactly the second separator. */
  lemma DotFormat(id: string, dims: string, format: string)
    requires WellFormedRef(id, dims, format) && FormatName(format)
    ensures ReplaceFirst(id + "-" + dims + "-" + format, "-" + format, "." + format) == id + "-" + dims + "." + format
  {
    var body := id + "-" + dims + "-" + format;
    var pat := "-" + format;
    var q := |id| + 1 + |dims|;
    assert OccursAt(body, pat, q) by {
      assert body[q..q + 4] == pat;
    }
    assert pat[1..] == format[..3];
    forall i: nat | i < q ensures !OccursAt(body, pat, i) {
      SuffixPatternAt(id, dims, format, pat, i);
    }
    ReplaceAt(body, pat, "." + format, q);
    assert body[..q] == id + "-" + dims && body[q + 4..] == [];
  }

  /** Rewrite steps whose pattern does not occur leave the text alone. */
  lemma {:induction false} DotFormatsAbsent(s: string, formats: seq<string>)
    requires forall e :: e in formats ==> !Contains(s, "-" + e)
    ensures DotFormats(s, formats) == s
    decreases |formats|
  {
    if formats != [] {
      DotFormatsAbsent(s, formats[1..]);
    }
  }

  /** A listed format gets its dot; the steps for the other listed formats change nothing. */
  lemma {:induction false} DotFormatsListed(id: string, dims: string, format: string, formats: seq<string>)
    requires WellFormedRef(id, dims, format) && format in formats
    requires forall e :: e in formats ==> FormatName(e)
    ensures DotFormats(id + "-" + dims + "-" + format, formats) == id + "-" + dims + "." + format
    decreases |formats|
  {
    var body := id + "-" + dims + "-" + format;
    var e := formats[0];
    if e == format {
      DotFormat(id, dims, format);
      forall e' | e' in formats[1..] ensures !Contains(id + "-" + dims + "." + format, "-" + e') {
        NoFormatAfterDot(id, dims, format, e');
      }
      DotFormatsAbsent(id + "-" + dims + "." + format, formats[1..]);
    } else {
      assert format[..3] == format;
      NoOtherFormat(id, dims, format, e);
      DotFormatsListed(id, dims, format, formats[1..]);
    }
  }

  /** A format that starts with none of the listed ones passes every step unchanged. */
  lemma DotFormatsUnlisted(id: string, dims: string, format: string, formats: seq<string>)
    requires WellFormedRef(id, dims, format)
    requires forall e :: e in formats ==> FormatName(e) && (|format| < 3 || format[..3] != e)
    ensures DotFormats(id + "-" + dims + "-" + format, formats) == id + "-" + dims + "-" + format
  {
    forall e | e in formats ensures !Contains(id + "-" + dims + "-" + format, "-" + e) {
      NoOtherFormat(id, dims, format, e);
    }
    DotFormatsAbsent(id + "-" + dims + "-" + format, formats);
  }

  /** For a `jpg` or `png` reference the rewrite as written yields `<id>-<dims>.<format>`. */
  lemma AsWrittenHandlesJpgAndPng(id: string, dims: string, format: string)
    requires WellFormedRef(id, dims, format)
    requires format == "jpg" || format == "png"
    ensures AssetFileName(Ref(id, dims, format)) == id + "-" + dims + "." + format
  {
    StripImagePrefix(id, dims, format);
    assert FormatName("jpg") && FormatName("png");
    DotFormatsListed(id, dims, format, DottedFormats);
  }

  /**
   * For any other format (one not starting with `jpg` or `png`, such as `webp` or
   * `gif`) the rewrite as written leaves the format's dash in place, so the file
   * name misses its extension dot.
   */
  lemma AsWrittenMissesOtherFormats(id: string, dims: string, format: string)
    requires WellFormedRef(id, dims, format)
    requires |format| < 3 || (format[..3] != "jpg" && format[..3] != "png")
    ensures AssetFileName(Ref(id, dims, format)) == id + "-" + dims + "-" + format
    ensures AssetFileName(Ref(id, dims, format)) != AssetFileNameFixed(Ref(id, dims, format))
  {
    StripImagePrefix(id, dims, format);
    assert FormatName("jpg") && FormatName("png");
    DotFormatsUnlisted(id, dims, format, DottedFormats);
    FixedHandlesEveryFormat(id, dims, format);
    var q := |id| + 1 + |dims|;
    assert (id + "-" + dims + "-" + format)[q] == '-' && (id + "-" + dims + "." + format)[q] == '.';
  }

  /**
   * A `webp` photo, `image-<id>-<dims>-webp` (for instance `image-a1b2-640x480-webp`):
   * the rewrite as written only strips the prefix and yields `<id>-<dims>-webp`,
   * where the corrected one yields `<id>-<dims>.webp`.
   */
  lemma AsWrittenWebpExample(id: string, dims: string)
    requires WellFormedRef(id, dims, "webp")
    ensures AssetFileName(Ref(id, dims, "webp")) == id + "-" + dims + "-" + "webp"
    ensures AssetFileNameFixed(Ref(id, dims, "webp")) == id + "-" + dims + "." + "webp"
  {
    var format := "webp";
    assert format[..3] == "web";
    AsWrittenMissesOtherFormats(id, dims, format);
    FixedHandlesEveryFormat(id, dims, format);
  }

  /** The last occurrence of `c` is at `q` when `s[q]` is `c` and nothing after it is. */
  lemma LastIndexOfCharAt(s: string, c: char, q: nat)
    requires q < |s| && s[q] == c
    requires forall i :: q < i < |s| ==> s[i] != c
    ensures LastIndexOfChar(s, c) == Some(q)
  {
  }

  /** The intended rewrite yields `<id>-<dims>.<format>` for every format. */
  lemma FixedHandlesEveryFormat(id: string, dims: string, format: string)
    requires WellFormedRef(id, dims, format)
    ensures AssetFileNameFixed(Ref(id, dims, format)) == id + "-" + dims + "." + format
  {
    StripImagePrefix(id, dims, format);
    var body := id + "-" + dims + "-" + format;
    var q := |id| + 1 + |dims|;
    forall i | q < i < |body| ensures body[i] != '-' {
      assert body[i] == format[i - q - 1];
    }
    LastIndexOfCharAt(body, '-', q);
    assert body[..q] == id + "-" + dims && body[q + 1..] == format;
  }

  /** The intended rewrite agrees with the one as written wherever the latter works. */
  lemma FixedAgreesOnJpgAndPng(id: string, dims: string, format: string)
    requires WellFormedRef(id, dims, format)
    requires format == "jpg" || format == "png"
    ensures AssetFileNameFixed(Ref(id, dims, format)) == AssetFileName(Ref(id, dims, format))
  {
    AsWrittenHandlesJpgAndPng(id, dims, format);
    FixedHandlesEveryFormat(id, dims, format);
  }

  /** The photo URL of a jpg or png reference ends in the dotted file name `<id>-<dims>.<format>`. */
  lemma ImageUrlOfJpgAndPng(projectId: string, id: string, dims: string, format: string)
    requires WellFormedRef(id, dims, format)
    requires format == "jpg" || format == "png"
    ensures ImageUrl(projectId, Ref(id, dims, format)) == ImageFolder(projectId) + (id + "-" + dims + "." + format)
  {
    AsWrittenHandlesJpgAndPng(id, dims, format);
  }

  /** The photo URL of any other reference ends in `<id>-<dims>-<format>`, with no extension dot. */
  lemma ImageUrlOfOtherFormats(projectId: string, id: string, dims: string, format: string)
    requires WellFormedRef(id, dims, format)
    requires |format| < 3 || (format[..3] != "jpg" && format[..3] != "png")
    ensures ImageUrl(projectId, Ref(id, dims, format)) == ImageFolder(projectId) + (id + "-" + dims + "-" + format)
  {
    AsWrittenMissesOtherFormats(id, dims, format);
  }

  /** The photo URL built on the corrected rewrite. */
  function ImageUrlFixed(projectId: string, ref: string): string
  {
    ImageFolder(projectId) + AssetFileNameFixed(ref)
  }

  /** With the corrected rewrite, every well-formed reference gets the dotted file name. */
  lemma ImageUrlFixedOfEveryFormat(projectId: string, id: string, dims: string, format: string)
    requires WellFormedRef(id, dims, format)
    ensures ImageUrlFixed(projectId, Ref(id, dims, format)) == ImageFolder(projectId) + (id + "-" + dims + "." + format)
  {
    FixedHandlesEveryFormat(id, dims, format);
  }
}
