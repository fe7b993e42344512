/**
 * `applyFromText` and the command gate of `main` in scripts/comment_to_config.js.
 *
 * The configuration object that `applyFromText` updates in place is the class
 * `Config`; a top-level field that is missing, null or otherwise falsy is `None`
 * (a falsy brand may also be the empty string). The outcome of each step is
 * specified by a function of the text and the prior field value; the lemmas
 * below state what those functions promise.
 */
module Directives {
  import opened Text
  import opened Schema
  import opened Clauses

  // ---------- specification of the outcome, field by field ----------

  /** `cfg.brand ||= "Buds at Work"`: a missing or empty brand becomes the default. */
  function BrandOrDefault(b: Option<string>): (r: string)
    ensures r != ""
    ensures b.Some? && b.value != "" ==> r == b.value
    ensures b.None? || b.value == "" ==> r == DefaultBrand
  {
    if b.Some? && b.value != "" then b.value else DefaultBrand
  }

  /** The brand after the call: the trimmed rename capture, else the defaulted prior brand. */
  function BrandAfter(text: string, prior: Option<string>): (r: string)
    ensures RenameBrand(ToLower(text)).Some? ==> IsTrimmed(r)
    ensures RenameBrand(ToLower(text)).None? ==> r != ""
    ensures RenameBrand(ToLower(text)).None? && prior.Some? && prior.value != "" ==> r == prior.value
  {
    match RenameBrand(ToLower(text))
    case Some(x) => Trim(x)
    case None => BrandOrDefault(prior)
  }

  /** `m[k] = v` when the rule fired (`v` is present), `m` otherwise. */
  function Put<V>(m: map<string, V>, k: string, v: Option<V>): map<string, V>
  {
    if v.Some? then m[k := v.value] else m
  }

  /** A second write to the same key replaces the first. */
  lemma Overwrite<V>(m: map<string, V>, k: string, a: V, b: V)
    ensures m[k := a][k := b] == m[k := b]
  {
  }

  /**
   * The accent the colour words select. The mustard/yellow rule is checked after the
   * coral rule, so it takes precedence whatever the order of the words in the text.
   */
  function AccentWord(t: string): (r: Option<string>)
    ensures r.Some? <==> HasWord(t, "coral") || HasWord(t, "mustard") || HasWord(t, "yellow")
    ensures r == Some(Mustard) <==> HasWord(t, "mustard") || HasWord(t, "yellow")
    ensures r.Some? ==> r.value in {Coral, Mustard}
  {
    if HasWord(t, "mustard") || HasWord(t, "yellow") then Some(Mustard)
    else if HasWord(t, "coral") then Some(Coral)
    else None
  }

  /** The primary colour the words select; green is checked after purple and wins. */
  function PrimaryWord(t: string): (r: Option<string>)
    ensures r.Some? <==> HasWord(t, "green") || HasWord(t, "purple")
    ensures r == Some(Green) <==> HasWord(t, "green")
    ensures r.Some? ==> r.value in {Green, Purple}
  {
    if HasWord(t, "green") then Some(Green)
    else if HasWord(t, "purple") then Some(Purple)
    else None
  }

  /** The paper colour the words select: cream for either word. */
  function PaperWord(t: string): (r: Option<string>)
    ensures r.Some? <==> HasWord(t, "cream") || HasWord(t, "ivory")
    ensures r.Some? ==> r.value == Cream
  {
    if HasWord(t, "cream") || HasWord(t, "ivory") then Some(Cream) else None
  }

  /** `colors` after the call, from the lower-cased text and the defaulted prior map. */
  function ColorsAfter(t: string, prior: map<string, string>): (r: map<string, string>)
    ensures prior.Keys <= r.Keys <= prior.Keys + {"accent", "primary", "paper"}
  {
    Put(Put(Put(prior, "accent", AccentWord(t)), "primary", PrimaryWord(t)), "paper", PaperWord(t))
  }

  /** A feature rule only ever writes `true`. */
  function Flag(fired: bool): Option<FeatureVal>
  {
    if fired then Some(B(true)) else None
  }

  function HeroImage(text: string): (r: Option<FeatureVal>)
    ensures r.Some? <==> HeroUrl(text).Some?
    ensures r.Some? ==> r.value == S(HeroUrl(text).value)
  {
    match HeroUrl(text)
    case Some(u) => Some(S(u))
    case None => None
  }

  /** The five feature writes, with the values they write left open. */
  function FeatureWrites(m: map<string, FeatureVal>, rb: Option<FeatureVal>, bh: Option<FeatureVal>,
                         fq: Option<FeatureVal>, gl: Option<FeatureVal>, hi: Option<FeatureVal>): map<string, FeatureVal>
  {
    Put(Put(Put(Put(Put(m, "roundedButtons", rb), "biggerHero", bh), "faq", fq), "gallery", gl), "heroImage", hi)
  }

  /** `features` after the four flag rules, from the lower-cased text. */
  function FlagsAfter(t: string, prior: map<string, FeatureVal>): (r: map<string, FeatureVal>)
    ensures prior.Keys <= r.Keys
    ensures forall k :: k in r && (k !in prior || r[k] != prior[k]) ==> r[k] == B(true)
  {
    var m1 := Put(prior, "roundedButtons", Flag(Contains(t, "rounded buttons") || Contains(t, "rounded")));
    var m2 := Put(m1, "biggerHero", Flag(Contains(t, "bigger hero") || Contains(t, "bigger heading")));
    var m3 := Put(m2, "faq", Flag(HasAddFaq(t)));
    Put(m3, "gallery", Flag(Contains(t, "add gallery") || Contains(t, "add work section")))
  }

  /** `features` after the call, from the text and the defaulted prior map. */
  function FeaturesAfter(text: string, prior: map<string, FeatureVal>): (r: map<string, FeatureVal>)
    ensures prior.Keys <= r.Keys
    ensures forall k :: k in r ==> k in prior || FeatureKey(k)
  {
    Put(FlagsAfter(ToLower(text), prior), "heroImage", HeroImage(text))
  }

  /** `contact` after the call, from the text and the defaulted prior map. */
  function ContactAfter(text: string, prior: map<string, string>): (r: map<string, string>)
    ensures prior.Keys <= r.Keys <= prior.Keys + {"email", "phone"}
  {
    Put(Put(prior, "email", Email(text)), "phone", Phone(text))
  }

  /**
   * The padding loop followed by `slice(0, 3)`: exactly three services, the given
   * ones first, placeholders after them.
   */
  function Normalize(s: seq<Service>): (r: seq<Service>)
    ensures |r| == 3
    ensures forall i :: 0 <= i < 3 ==> r[i] == if i < |s| then s[i] else Placeholder
    decreases 3 - |s|
  {
    if |s| >= 3 then s[..3] else Normalize(s + [Placeholder])
  }

  /** `services` after the call: the prior list, the parsed lines appended, normalized. */
  function ServicesAfter(text: string, prior: seq<Service>): (r: seq<Service>)
    ensures |r| == 3
    ensures forall i :: 0 <= i < 3 && i < |prior| ==> r[i] == prior[i]
  {
    Normalize(prior + ParsedServices(ServiceLines(text)))
  }

  // ---------- the configuration object ----------

  class Config {
    var brand: Option<string>
    var colors: Option<map<string, string>>
    var features: Option<map<string, FeatureVal>>
    var contact: Option<map<string, string>>
    var services: Option<seq<Service>>

    constructor (brand: Option<string>, colors: Option<map<string, string>>,
                 features: Option<map<string, FeatureVal>>, contact: Option<map<string, string>>,
                 services: Option<seq<Service>>)
      ensures this.brand == brand && this.colors == colors && this.features == features
      ensures this.contact == contact && this.services == services
    {
      this.brand := brand;
      this.colors := colors;
      this.features := features;
      this.contact := contact;
      this.services := services;
    }

    /** Every field present and exactly three services: the shape `applyFromText` leaves. */
    predicate Complete()
      reads this
    {
      brand.Some? && colors.Some? && features.Some? && contact.Some? &&
      services.Some? && |services.value| == 3
    }

    /**
     * `applyFromText(text, cfg)`: defaults, then the clause rules in source order, then
     * services. The brand rule reads the lower-cased text; the hero URL, the contact
     * details and the service lines read the original one.
     */
    method ApplyFromText(text: string)
      modifies this
      ensures Complete()
      ensures brand == Some(BrandAfter(text, old(brand)))
      ensures colors == Some(ColorsAfter(ToLower(text), old(colors).GetOr(map[])))
      ensures features == Some(FeaturesAfter(text, old(features).GetOr(map[])))
      ensures contact == Some(ContactAfter(text, old(contact).GetOr(map[])))
      ensures services == Some(ServicesAfter(text, old(services).GetOr([])))
    {
      var t := ToLower(text);
      var b := BrandOrDefault(brand);
      var renamed := RenameBrand(t);
      if renamed.Some? { b := Trim(renamed.value); }
      var c := ApplyColors(t, colors.GetOr(map[]));
      var f := ApplyFeatures(text, t, features.GetOr(map[]));
      var k := ApplyContact(text, contact.GetOr(map[]));
      var s := ApplyServices(text, services.GetOr([]));
      brand, colors, features, contact, services := Some(b), Some(c), Some(f), Some(k), Some(s);
    }
  }

  // ---------- the steps of applyFromText on the field values ----------

  /** Lines 37-41: the colour words, checked in this order, each overwriting `m`. */
  method ApplyColors(t: string, m0: map<string, string>) returns (m: map<string, string>)
    ensures m == ColorsAfter(t, m0)
  {
    m := m0;
    if HasWord(t, "coral") { m := m["accent" := Coral]; }
    if HasWord(t, "mustard") || HasWord(t, "yellow") {
      Overwrite(m0, "accent", Coral, Mustard);
      m := m["accent" := Mustard];
    }
    ghost var m1 := m;
    assert m1 == Put(m0, "accent", AccentWord(t));
    if HasWord(t, "purple") { m := m["primary" := Purple]; }
    if HasWord(t, "green") {
      Overwrite(m1, "primary", Purple, Green);
      m := m["primary" := Green];
    }
    assert m == Put(m1, "primary", PrimaryWord(t));
    if HasWord(t, "cream") || HasWord(t, "ivory") { m := m["paper" := Cream]; }
  }

  /** Lines 43-49: the feature words (lower-cased `t`), then the hero URL (original `text`). */
  method ApplyFeatures(text: string, t: string, m0: map<string, FeatureVal>) returns (m: map<string, FeatureVal>)
    requires t == ToLower(text)
    ensures m == FeaturesAfter(text, m0)
  {
    m := ApplyFlags(t, m0);
    var heroUrl := HeroUrl(text);
    if heroUrl.Some? { m := m["heroImage" := S(heroUrl.value)]; }
  }

  /** Lines 43-46: each flag rule, in source order, sets its flag to `true`. */
  method ApplyFlags(t: string, m0: map<string, FeatureVal>) returns (m: map<string, FeatureVal>)
    ensures m == FlagsAfter(t, m0)
  {
    m := m0;
    if Contains(t, "rounded buttons") || Contains(t, "rounded") { m := m["roundedButtons" := B(true)]; }
    ghost var m1 := m;
    assert m1 == Put(m0, "roundedButtons", Flag(Contains(t, "rounded buttons") || Contains(t, "rounded")));
    if Contains(t, "bigger hero") || Contains(t, "bigger heading") { m := m["biggerHero" := B(true)]; }
    ghost var m2 := m;
    assert m2 == Put(m1, "biggerHero", Flag(Contains(t, "bigger hero") || Contains(t, "bigger heading")));
    if HasAddFaq(t) { m := m["faq" := B(true)]; }
    ghost var m3 := m;
    assert m3 == Put(m2, "faq", Flag(HasAddFaq(t)));
    if Contains(t, "add gallery") || Contains(t, "add work section") { m := m["gallery" := B(true)]; }
  }

  /** Lines 51-55: email and phone, from the original text. */
  method ApplyContact(text: string, m0: map<string, string>) returns (m: map<string, string>)
    ensures m == ContactAfter(text, m0)
  {
    m := m0;
    var email := Email(text);
    if email.Some? { m := m["email" := email.value]; }
    var phone := Phone(text);
    if phone.Some? { m := m["phone" := phone.value]; }
  }

  /** Lines 57-67: the matched `service:` lines are pushed, then the list is padded and sliced. */
  method ApplyServices(text: string, prior: seq<Service>) returns (services: seq<Service>)
    ensures services == ServicesAfter(text, prior)
  {
    var serviceLines := ServiceLines(text);
    var pushed := PushServiceLines(serviceLines, prior);
    services := NormalizeServices(pushed);
  }

  /**
   * Lines 58-64: the `forEach` over the matched `service:` lines (each holds the
   * colon the pattern requires); each line with at least three pieces is pushed, in order.
   */
  method PushServiceLines(serviceLines: seq<string>, before: seq<Service>) returns (services: seq<Service>)
    requires forall k :: 0 <= k < |serviceLines| ==> ':' in serviceLines[k]
    ensures services == before + ParsedServices(serviceLines)
  {
    services := before;
    var i := 0;
    assert serviceLines[..0] == [];
    assert before + ParsedServices([]) == before;
    while i < |serviceLines|
      invariant 0 <= i <= |serviceLines|
      invariant services == before + ParsedServices(serviceLines[..i])
    {
      ParsedServicesSnoc(before, serviceLines, i);
      var parsed := ServiceOfLine(serviceLines[i]);
      if parsed.Some? {
        services := services + [parsed.value];
      }
      i := i + 1;
    }
    assert serviceLines[..i] == serviceLines;
  }

  /** Lines 66-67: pad with the placeholder while fewer than three, then keep the first three. */
  method NormalizeServices(all: seq<Service>) returns (services: seq<Service>)
    ensures services == Normalize(all)
  {
    services := all;
    while |services| < 3
      invariant Normalize(services) == Normalize(all)
      decreases 3 - |services|
    {
      assert Normalize(services + [Placeholder]) == Normalize(services);
      services := services + [Placeholder];
    }
    assert Normalize(services) == services[..3];
    services := services[..3];
  }

  // ---------- what the outcome functions promise ----------

  /** A rule writes its own key and no other; a rule that did not fire writes nothing. */
  lemma PutFrame<V>(m: map<string, V>, k: string, v: Option<V>)
    ensures Put(m, k, v).Keys == if v.Some? then m.Keys + {k} else m.Keys
    ensures forall j :: j in m && j != k ==> Put(m, k, v)[j] == m[j]
    ensures v.Some? ==> Put(m, k, v)[k] == v.value
    ensures v.None? ==> Put(m, k, v) == m
  {
  }

  /** The brand rule reads the lower-cased text, so a renamed brand holds no capital A-Z. */
  lemma RenamedBrandLowerCase(text: string)
    requires RenameBrand(ToLower(text)).Some?
    ensures forall i :: 0 <= i < |BrandAfter(text, None)| ==> !IsUpper(BrandAfter(text, None)[i])
    ensures forall p :: BrandAfter(text, p) == BrandAfter(text, None)
  {
    var t := ToLower(text);
    RenameBrandFound(t);
    var span := RenameBrandMatch(t).value.1;
    ToLowerNoUpper(text);
    TrimmedPieceNoUpper(t, span.0, span.1);
  }

  /** A trimmed piece of a string without capitals has none either. */
  lemma TrimmedPieceNoUpper(t: string, a: nat, b: nat)
    requires a <= b <= |t|
    requires forall i :: 0 <= i < |t| ==> !IsUpper(t[i])
    ensures forall i :: 0 <= i < |Trim(t[a..b])| ==> !IsUpper(Trim(t[a..b])[i])
  {
    var x := t[a..b];
    forall c | c in x ensures !IsUpper(c) {
      var i :| 0 <= i < |x| && x[i] == c;
      assert x[i] == t[a + i];
    }
    TrimInfix(x);
    var r := Trim(x);
    forall i | 0 <= i < |r| ensures !IsUpper(r[i]) {
      assert r[i] in x;
    }
  }

  /** Without a rename clause the brand is the prior one, or the default when that is missing or empty. */
  lemma BrandKeptWithoutRename(text: string, prior: Option<string>)
    requires RenameBrand(ToLower(text)).None?
    ensures BrandAfter(text, prior) == BrandOrDefault(prior)
    ensures prior.Some? && prior.value != "" ==> BrandAfter(text, prior) == prior.value
  {
  }

  /**
   * Colour precedence: mustard or yellow beats coral for the accent, green beats
   * purple for the primary colour, whatever their order in the text.
   */
  lemma ColourPrecedence(t: string, prior: map<string, string>)
    ensures HasWord(t, "mustard") || HasWord(t, "yellow") ==> ColorsAfter(t, prior)["accent"] == Mustard
    ensures HasWord(t, "coral") && !HasWord(t, "mustard") && !HasWord(t, "yellow") ==>
              ColorsAfter(t, prior)["accent"] == Coral
    ensures HasWord(t, "green") ==> ColorsAfter(t, prior)["primary"] == Green
    ensures HasWord(t, "purple") && !HasWord(t, "green") ==> ColorsAfter(t, prior)["primary"] == Purple
    ensures HasWord(t, "cream") || HasWord(t, "ivory") ==> ColorsAfter(t, prior)["paper"] == Cream
  {
    var m1 := Put(prior, "accent", AccentWord(t));
    var m2 := Put(m1, "primary", PrimaryWord(t));
    PutFrame(prior, "accent", AccentWord(t));
    PutFrame(m1, "primary", PrimaryWord(t));
    PutFrame(m2, "paper", PaperWord(t));
  }

  /** A colour entry none of whose words occur keeps its prior value, or stays absent. */
  lemma ColoursUntouched(t: string, prior: map<string, string>)
    ensures !HasWord(t, "coral") && !HasWord(t, "mustard") && !HasWord(t, "yellow") ==>
              KeptAt(prior, ColorsAfter(t, prior), "accent")
    ensures !HasWord(t, "green") && !HasWord(t, "purple") ==> KeptAt(prior, ColorsAfter(t, prior), "primary")
    ensures !HasWord(t, "cream") && !HasWord(t, "ivory") ==> KeptAt(prior, ColorsAfter(t, prior), "paper")
  {
    var m1 := Put(prior, "accent", AccentWord(t));
    var m2 := Put(m1, "primary", PrimaryWord(t));
    PutFrame(prior, "accent", AccentWord(t));
    PutFrame(m1, "primary", PrimaryWord(t));
    PutFrame(m2, "paper", PaperWord(t));
  }

  /** The colour rules touch only `accent`, `primary` and `paper`, and only with palette values. */
  lemma ColoursOnlyPalette(t: string, prior: map<string, string>)
    ensures ColorsAfter(t, prior).Keys <= prior.Keys + {"accent", "primary", "paper"}
    ensures forall k :: k in prior && k != "accent" && k != "primary" && k != "paper" ==>
              ColorsAfter(t, prior)[k] == prior[k]
    ensures forall k :: k in ColorsAfter(t, prior) && (k !in prior || ColorsAfter(t, prior)[k] != prior[k]) ==>
              ColorsAfter(t, prior)[k] in {Coral, Mustard, Purple, Green, Cream}
  {
    var m1 := Put(prior, "accent", AccentWord(t));
    var m2 := Put(m1, "primary", PrimaryWord(t));
    PutFrame(prior, "accent", AccentWord(t));
    PutFrame(m1, "primary", PrimaryWord(t));
    PutFrame(m2, "paper", PaperWord(t));
  }

  /** What a feature rule may write under key `k`: `true`, or the hero URL under `heroImage`. */
  predicate FeatureWrite(text: string, k: string, v: FeatureVal) {
    if k == "heroImage" then HeroUrl(text).Some? && v == S(HeroUrl(text).value) else v == B(true)
  }

  /** Every entry of `m` that differs from `prior` is a permitted feature write; no key was removed. */
  predicate OnlyFeatureWrites(text: string, prior: map<string, FeatureVal>, m: map<string, FeatureVal>) {
    prior.Keys <= m.Keys &&
    forall k :: k in m && (k !in prior || m[k] != prior[k]) ==> FeatureWrite(text, k, m[k])
  }

  lemma FeatureWriteStep(text: string, prior: map<string, FeatureVal>, m: map<string, FeatureVal>,
                         k: string, v: Option<FeatureVal>)
    requires OnlyFeatureWrites(text, prior, m)
    requires v.Some? ==> FeatureWrite(text, k, v.value)
    ensures OnlyFeatureWrites(text, prior, Put(m, k, v))
  {
  }

  lemma FeatureWritesOnly(text: string, prior: map<string, FeatureVal>, rb: Option<FeatureVal>, bh: Option<FeatureVal>,
                          fq: Option<FeatureVal>, gl: Option<FeatureVal>, hi: Option<FeatureVal>)
    requires rb.Some? ==> FeatureWrite(text, "roundedButtons", rb.value)
    requires bh.Some? ==> FeatureWrite(text, "biggerHero", bh.value)
    requires fq.Some? ==> FeatureWrite(text, "faq", fq.value)
    requires gl.Some? ==> FeatureWrite(text, "gallery", gl.value)
    requires hi.Some? ==> FeatureWrite(text, "heroImage", hi.value)
    ensures OnlyFeatureWrites(text, prior, FeatureWrites(prior, rb, bh, fq, gl, hi))
  {
    var m1 := Put(prior, "roundedButtons", rb);
    var m2 := Put(m1, "biggerHero", bh);
    var m3 := Put(m2, "faq", fq);
    var m4 := Put(m3, "gallery", gl);
    FeatureWriteStep(text, prior, prior, "roundedButtons", rb);
    FeatureWriteStep(text, prior, m1, "biggerHero", bh);
    FeatureWriteStep(text, prior, m2, "faq", fq);
    FeatureWriteStep(text, prior, m3, "gallery", gl);
    FeatureWriteStep(text, prior, m4, "heroImage", hi);
  }

  /**
   * The feature rules never clear a flag: every entry they change is `true`, except
   * `heroImage`, which becomes the URL.
   */
  lemma FeaturesOnlySetTrue(text: string, prior: map<string, FeatureVal>)
    ensures OnlyFeatureWrites(text, prior, FeaturesAfter(text, prior))
  {
    var t := ToLower(text);
    FeaturesChain(text, prior);
    FeatureWritesOnly(text, prior,
                      Flag(Contains(t, "rounded buttons") || Contains(t, "rounded")),
                      Flag(Contains(t, "bigger hero") || Contains(t, "bigger heading")),
                      Flag(HasAddFaq(t)),
                      Flag(Contains(t, "add gallery") || Contains(t, "add work section")),
                      HeroImage(text));
  }

  /** The feature keys. */
  predicate FeatureKey(k: string) {
    k == "roundedButtons" || k == "biggerHero" || k == "faq" || k == "gallery" || k == "heroImage"
  }

  lemma FeatureWritesFrame(prior: map<string, FeatureVal>, rb: Option<FeatureVal>, bh: Option<FeatureVal>,
                           fq: Option<FeatureVal>, gl: Option<FeatureVal>, hi: Option<FeatureVal>)
    ensures forall k :: k in FeatureWrites(prior, rb, bh, fq, gl, hi) ==> k in prior || FeatureKey(k)
    ensures forall k :: k in prior && !FeatureKey(k) ==> FeatureWrites(prior, rb, bh, fq, gl, hi)[k] == prior[k]
  {
    var m1 := Put(prior, "roundedButtons", rb);
    var m2 := Put(m1, "biggerHero", bh);
    var m3 := Put(m2, "faq", fq);
    var m4 := Put(m3, "gallery", gl);
    PutFrame(prior, "roundedButtons", rb);
    PutFrame(m1, "biggerHero", bh);
    PutFrame(m2, "faq", fq);
    PutFrame(m3, "gallery", gl);
    PutFrame(m4, "heroImage", hi);
  }

  /** The feature rules touch only their five keys. */
  lemma FeaturesFrame(text: string, prior: map<string, FeatureVal>)
    ensures forall k :: k in FeaturesAfter(text, prior) ==> k in prior || FeatureKey(k)
    ensures forall k :: k in prior && !FeatureKey(k) ==> FeaturesAfter(text, prior)[k] == prior[k]
  {
    var t := ToLower(text);
    FeaturesChain(text, prior);
    FeatureWritesFrame(prior,
                       Flag(Contains(t, "rounded buttons") || Contains(t, "rounded")),
                       Flag(Contains(t, "bigger hero") || Contains(t, "bigger heading")),
                       Flag(HasAddFaq(t)),
                       Flag(Contains(t, "add gallery") || Contains(t, "add work section")),
                       HeroImage(text));
  }

  /** Entry `k` of `m` is as in `prior`: present in both with the same value, or in neither. */
  predicate KeptAt<V(==)>(prior: map<string, V>, m: map<string, V>, k: string) {
    (k in m <==> k in prior) && (k in prior ==> m[k] == prior[k])
  }

  /** Entry `k` of `m` is what a rule writing `v` leaves over `prior`. */
  predicate PutEffect<V(==)>(prior: map<string, V>, m: map<string, V>, k: string, v: Option<V>) {
    if v.Some? then k in m && m[k] == v.value else KeptAt(prior, m, k)
  }

  /** A write to `j` leaves the effect of an earlier write to another key in place. */
  lemma PutEffectKept<V>(prior: map<string, V>, m: map<string, V>, k: string, v: Option<V>, j: string, w: Option<V>)
    requires PutEffect(prior, m, k, v) && j != k
    ensures PutEffect(prior, Put(m, j, w), k, v)
  {
    PutFrame(m, j, w);
  }

  lemma FeatureWritesEffect(prior: map<string, FeatureVal>, rb: Option<FeatureVal>, bh: Option<FeatureVal>,
                            fq: Option<FeatureVal>, gl: Option<FeatureVal>, hi: Option<FeatureVal>)
    ensures var r := FeatureWrites(prior, rb, bh, fq, gl, hi);
            PutEffect(prior, r, "roundedButtons", rb) && PutEffect(prior, r, "biggerHero", bh) &&
            PutEffect(prior, r, "faq", fq) && PutEffect(prior, r, "gallery", gl) &&
            PutEffect(prior, r, "heroImage", hi)
  {
    var m1 := Put(prior, "roundedButtons", rb);
    var m2 := Put(m1, "biggerHero", bh);
    var m3 := Put(m2, "faq", fq);
    var m4 := Put(m3, "gallery", gl);
    PutEffectKept(prior, m1, "roundedButtons", rb, "biggerHero", bh);
    PutEffectKept(prior, m2, "roundedButtons", rb, "faq", fq);
    PutEffectKept(prior, m3, "roundedButtons", rb, "gallery", gl);
    PutEffectKept(prior, m4, "roundedButtons", rb, "heroImage", hi);
    PutEffectKept(prior, m2, "biggerHero", bh, "faq", fq);
    PutEffectKept(prior, m3, "biggerHero", bh, "gallery", gl);
    PutEffectKept(prior, m4, "biggerHero", bh, "heroImage", hi);
    PutEffectKept(prior, m3, "faq", fq, "gallery", gl);
    PutEffectKept(prior, m4, "faq", fq, "heroImage", hi);
    PutEffectKept(prior, m4, "gallery", gl, "heroImage", hi);
  }

  /** Flag `k` is `true` when its rule fired and as in `prior` when it did not. */
  predicate FlagEffect(prior: map<string, FeatureVal>, m: map<string, FeatureVal>, k: string, fired: bool) {
    if fired then k in m && m[k] == B(true) else KeptAt(prior, m, k)
  }

  /**
   * Entry by entry: each flag is `true` when its words occur (`rounded` alone is
   * enough for `roundedButtons`) and untouched otherwise; `heroImage` is the hero URL
   * when there is one and untouched otherwise.
   */
  lemma FeatureEffects(text: string, prior: map<string, FeatureVal>)
    ensures var t := ToLower(text); var r := FeaturesAfter(text, prior);
            FlagEffect(prior, r, "roundedButtons", Contains(t, "rounded")) &&
            FlagEffect(prior, r, "biggerHero", Contains(t, "bigger hero") || Contains(t, "bigger heading")) &&
            FlagEffect(prior, r, "faq", HasAddFaq(t)) &&
            FlagEffect(prior, r, "gallery", Contains(t, "add gallery") || Contains(t, "add work section"))
    ensures forall u :: HeroUrl(text) == Some(u) ==> FeaturesAfter(text, prior)["heroImage"] == S(u)
    ensures HeroUrl(text).None? ==> KeptAt(prior, FeaturesAfter(text, prior), "heroImage")
  {
    var t := ToLower(text);
    FeaturesChain(text, prior);
    RoundedIsBareSubstring(t);
    FeatureWritesEffect(prior,
                        Flag(Contains(t, "rounded buttons") || Contains(t, "rounded")),
                        Flag(Contains(t, "bigger hero") || Contains(t, "bigger heading")),
                        Flag(HasAddFaq(t)),
                        Flag(Contains(t, "add gallery") || Contains(t, "add work section")),
                        HeroImage(text));
  }

  /** `rounded buttons` contains `rounded`: the first alternative of the rule adds nothing. */
  lemma RoundedIsBareSubstring(t: string)
    ensures (Contains(t, "rounded buttons") || Contains(t, "rounded")) == Contains(t, "rounded")
  {
    var long := (j: nat) => Lit(t, j, "rounded buttons");
    var short := (j: nat) => Lit(t, j, "rounded");
    AnyFromIff(|t|, 0, long);
    AnyFromIff(|t|, 0, short);
    if AnyFrom(|t|, 0, long) {
      var j :| 0 <= j <= |t| && long(j);
      assert t[j..j + 7] == t[j..j + 15][..7];
      assert short(j);
    }
  }

  /** So any occurrence of `rounded`, even inside another word, sets `roundedButtons`. */
  lemma RoundedSetsFlag(text: string, prior: map<string, FeatureVal>)
    requires Contains(ToLower(text), "rounded")
    ensures FeaturesAfter(text, prior)["roundedButtons"] == B(true)
  {
    var t := ToLower(text);
    var rb := Flag(Contains(t, "rounded buttons") || Contains(t, "rounded"));
    var bh := Flag(Contains(t, "bigger hero") || Contains(t, "bigger heading"));
    var fq := Flag(HasAddFaq(t));
    var gl := Flag(Contains(t, "add gallery") || Contains(t, "add work section"));
    var hi := HeroImage(text);
    var m1 := Put(prior, "roundedButtons", rb);
    var m2 := Put(m1, "biggerHero", bh);
    var m3 := Put(m2, "faq", fq);
    var m4 := Put(m3, "gallery", gl);
    PutKept(m1, "roundedButtons", rb, "biggerHero", bh);
    PutKept(m2, "roundedButtons", rb, "faq", fq);
    PutKept(m3, "roundedButtons", rb, "gallery", gl);
    PutKept(m4, "roundedButtons", rb, "heroImage", hi);
  }

  /** The contact rules touch only `email` and `phone`. */
  lemma ContactFrame(text: string, prior: map<string, string>)
    ensures ContactAfter(text, prior).Keys <= prior.Keys + {"email", "phone"}
    ensures forall k :: k in prior && k != "email" && k != "phone" ==> ContactAfter(text, prior)[k] == prior[k]
    ensures Email(text).Some? ==> ContactAfter(text, prior)["email"] == Email(text).value
    ensures Phone(text).Some? ==> ContactAfter(text, prior)["phone"] == Phone(text).value
    ensures Email(text).None? ==> KeptAt(prior, ContactAfter(text, prior), "email")
    ensures Phone(text).None? ==> KeptAt(prior, ContactAfter(text, prior), "phone")
  {
    PutFrame(prior, "email", Email(text));
    PutFrame(Put(prior, "email", Email(text)), "phone", Phone(text));
  }

  /** Normalizing twice is normalizing once. */
  lemma NormalizeIdempotent(s: seq<Service>)
    ensures Normalize(Normalize(s)) == Normalize(s)
  {
    var n := Normalize(s);
    assert Normalize(n) == n[..3];
    assert n[..3] == n;
  }

  /**
   * Prior services keep their places and parsed ones come after them; with three or
   * more prior services every `service:` line is discarded.
   */
  lemma ServicesAppended(text: string, prior: seq<Service>)
    ensures var r := ServicesAfter(text, prior);
            var parsed := ParsedServices(ServiceLines(text));
            |r| == 3 &&
            (forall i :: 0 <= i < 3 && i < |prior| ==> r[i] == prior[i]) &&
            (forall i :: |prior| <= i < 3 && i < |prior| + |parsed| ==> r[i] == parsed[i - |prior|]) &&
            (forall i :: |prior| + |parsed| <= i < 3 ==> r[i] == Placeholder)
    ensures |prior| >= 3 ==> ServicesAfter(text, prior) == prior[..3]
  {
    NormalizeAppend(prior, ParsedServices(ServiceLines(text)));
  }

  /** `Normalize(prior + parsed)`: the prior services, then the parsed ones, then placeholders. */
  lemma NormalizeAppend(prior: seq<Service>, parsed: seq<Service>)
    ensures var r := Normalize(prior + parsed);
            (forall i :: 0 <= i < 3 && i < |prior| ==> r[i] == prior[i]) &&
            (forall i :: |prior| <= i < 3 && i < |prior| + |parsed| ==> r[i] == parsed[i - |prior|]) &&
            (forall i :: |prior| + |parsed| <= i < 3 ==> r[i] == Placeholder)
    ensures |prior| >= 3 ==> Normalize(prior + parsed) == prior[..3]
  {
    var all := prior + parsed;
    var r := Normalize(all);
    forall i | 0 <= i < 3 && i < |prior| ensures r[i] == prior[i] {
      assert all[i] == prior[i];
    }
    forall i | |prior| <= i < 3 && i < |all| ensures r[i] == parsed[i - |prior|] {
      assert all[i] == parsed[i - |prior|];
    }
    if |prior| >= 3 {
      assert r == prior[..3];
    }
  }

  /** The services a text contributes are cleanly trimmed fields, in the order of their lines. */
  lemma ParsedServicesAreClean(text: string)
    ensures forall k :: 0 <= k < |ParsedServices(ServiceLines(text))| ==>
              CleanService(ParsedServices(ServiceLines(text))[k])
  {
    ParsedServicesClean(ServiceLines(text));
  }

  /** No clause rule fires on the empty text. */
  lemma NothingInEmpty()
    ensures ToLower("") == ""
    ensures RenameBrand("").None? && HeroUrl("").None? && Email("").None? && Phone("").None?
    ensures ServiceLines("") == []
    ensures forall w :: w != "" ==> !HasWord("", w) && !Contains("", w)
    ensures !HasAddFaq("")
  {
    assert RenameBrandAt("", 0).None?;
    assert HeroAt("", 0).None?;
    assert EmailAt("", 0).None?;
    assert PhoneAt("", 0).None?;
    assert ServiceAt("", 0).None?;
  }

  /** An empty comment changes nothing in a configuration that is already complete. */
  lemma EmptyTextKeeps(brand: string, colors: map<string, string>, features: map<string, FeatureVal>,
                       contact: map<string, string>, services: seq<Service>)
    requires brand != "" && |services| == 3
    ensures BrandAfter("", Some(brand)) == brand
    ensures ColorsAfter(ToLower(""), colors) == colors
    ensures FeaturesAfter("", features) == features
    ensures ContactAfter("", contact) == contact
    ensures ServicesAfter("", services) == services
  {
    NothingInEmpty();
    FeaturesChain("", features);
    assert ParsedServices([]) == [];
    assert services + [] == services;
    assert services[..3] == services;
  }

  /**
   * No rule of `applyFromText` fires on `text`: no rename, no colour word, no
   * feature phrase, no hero, email or phone clause, and no `service:` line that
   * yields a service.
   */
  predicate NoClause(text: string) {
    var t := ToLower(text);
    RenameBrand(t).None? &&
    !HasWord(t, "coral") && !HasWord(t, "mustard") && !HasWord(t, "yellow") &&
    !HasWord(t, "green") && !HasWord(t, "purple") && !HasWord(t, "cream") && !HasWord(t, "ivory") &&
    !Contains(t, "rounded buttons") && !Contains(t, "rounded") &&
    !Contains(t, "bigger hero") && !Contains(t, "bigger heading") && !HasAddFaq(t) &&
    !Contains(t, "add gallery") && !Contains(t, "add work section") &&
    HeroUrl(text).None? && Email(text).None? && Phone(text).None? &&
    ParsedServices(ServiceLines(text)) == []
  }

  /** A comment in which no rule fires changes nothing in a configuration that is already complete. */
  lemma NoClauseKeeps(text: string, brand: string, colors: map<string, string>,
                      features: map<string, FeatureVal>, contact: map<string, string>, services: seq<Service>)
    requires NoClause(text) && brand != "" && |services| == 3
    ensures BrandAfter(text, Some(brand)) == brand
    ensures ColorsAfter(ToLower(text), colors) == colors
    ensures FeaturesAfter(text, features) == features
    ensures ContactAfter(text, contact) == contact
    ensures ServicesAfter(text, services) == services
  {
    var t := ToLower(text);
    assert AccentWord(t).None? && PrimaryWord(t).None? && PaperWord(t).None?;
    assert FlagsAfter(t, features) == features;
    assert HeroImage(text).None?;
    assert services + ParsedServices(ServiceLines(text)) == services;
    assert services[..3] == services;
  }

  /** Applying the same text twice gives the same configuration as applying it once. */
  lemma ApplyIdempotent(text: string, brand: Option<string>, colors: map<string, string>,
                        features: map<string, FeatureVal>, contact: map<string, string>, services: seq<Service>)
    ensures BrandAfter(text, Some(BrandAfter(text, brand))) == BrandAfter(text, brand)
    ensures ColorsAfter(ToLower(text), ColorsAfter(ToLower(text), colors)) == ColorsAfter(ToLower(text), colors)
    ensures FeaturesAfter(text, FeaturesAfter(text, features)) == FeaturesAfter(text, features)
    ensures ContactAfter(text, ContactAfter(text, contact)) == ContactAfter(text, contact)
    ensures ServicesAfter(text, ServicesAfter(text, services)) == ServicesAfter(text, services)
  {
    ColorsTwice(ToLower(text), colors);
    FeaturesTwice(text, features);
    ContactTwice(text, contact);
    ServicesTwice(text, services);
  }

  /** A write that is already in the map changes nothing. */
  lemma PutSettled<V>(m: map<string, V>, k: string, v: Option<V>)
    requires v.Some? ==> k in m && m[k] == v.value
    ensures Put(m, k, v) == m
  {
  }

  /** A write survives later writes to other keys. */
  lemma PutKept<V>(m: map<string, V>, k: string, v: Option<V>, j: string, w: Option<V>)
    requires v.Some? ==> k in m && m[k] == v.value
    requires j != k
    ensures v.Some? ==> k in Put(m, j, w) && Put(m, j, w)[k] == v.value
  {
  }

  lemma ColorsTwice(t: string, m: map<string, string>)
    ensures ColorsAfter(t, ColorsAfter(t, m)) == ColorsAfter(t, m)
  {
    var m1 := Put(m, "accent", AccentWord(t));
    var m2 := Put(m1, "primary", PrimaryWord(t));
    var r := Put(m2, "paper", PaperWord(t));
    PutKept(m1, "accent", AccentWord(t), "primary", PrimaryWord(t));
    PutKept(m2, "accent", AccentWord(t), "paper", PaperWord(t));
    PutKept(m2, "primary", PrimaryWord(t), "paper", PaperWord(t));
    PutSettled(r, "accent", AccentWord(t));
    PutSettled(r, "primary", PrimaryWord(t));
    PutSettled(r, "paper", PaperWord(t));
  }

  /** The feature outcome is the five writes with the values the rules select. */
  lemma FeaturesChain(text: string, m: map<string, FeatureVal>)
    ensures var t := ToLower(text);
            FeaturesAfter(text, m) ==
            FeatureWrites(m, Flag(Contains(t, "rounded buttons") || Contains(t, "rounded")),
                          Flag(Contains(t, "bigger hero") || Contains(t, "bigger heading")),
                          Flag(HasAddFaq(t)),
                          Flag(Contains(t, "add gallery") || Contains(t, "add work section")),
                          HeroImage(text))
  {
  }

  lemma FeatureWritesTwice(m: map<string, FeatureVal>, rb: Option<FeatureVal>, bh: Option<FeatureVal>,
                           fq: Option<FeatureVal>, gl: Option<FeatureVal>, hi: Option<FeatureVal>)
    ensures FeatureWrites(FeatureWrites(m, rb, bh, fq, gl, hi), rb, bh, fq, gl, hi) == FeatureWrites(m, rb, bh, fq, gl, hi)
  {
    var m1 := Put(m, "roundedButtons", rb);
    var m2 := Put(m1, "biggerHero", bh);
    var m3 := Put(m2, "faq", fq);
    var m4 := Put(m3, "gallery", gl);
    var r := Put(m4, "heroImage", hi);
    // each write survives the later ones
    PutKept(m1, "roundedButtons", rb, "biggerHero", bh);
    PutKept(m2, "roundedButtons", rb, "faq", fq);
    PutKept(m3, "roundedButtons", rb, "gallery", gl);
    PutKept(m4, "roundedButtons", rb, "heroImage", hi);
    PutKept(m2, "biggerHero", bh, "faq", fq);
    PutKept(m3, "biggerHero", bh, "gallery", gl);
    PutKept(m4, "biggerHero", bh, "heroImage", hi);
    PutKept(m3, "faq", fq, "gallery", gl);
    PutKept(m4, "faq", fq, "heroImage", hi);
    PutKept(m4, "gallery", gl, "heroImage", hi);
    // so applying them again to `r` leaves it as it is
    PutSettled(r, "roundedButtons", rb);
    PutSettled(r, "biggerHero", bh);
    PutSettled(r, "faq", fq);
    PutSettled(r, "gallery", gl);
    PutSettled(r, "heroImage", hi);
  }

  lemma FeaturesTwice(text: string, m: map<string, FeatureVal>)
    ensures FeaturesAfter(text, FeaturesAfter(text, m)) == FeaturesAfter(text, m)
  {
    var t := ToLower(text);
    FeaturesChain(text, m);
    FeaturesChain(text, FeaturesAfter(text, m));
    FeatureWritesTwice(m,
                       Flag(Contains(t, "rounded buttons") || Contains(t, "rounded")),
                       Flag(Contains(t, "bigger hero") || Contains(t, "bigger heading")),
                       Flag(HasAddFaq(t)),
                       Flag(Contains(t, "add gallery") || Contains(t, "add work section")),
                       HeroImage(text));
  }

  lemma ContactTwice(text: string, m: map<string, string>)
    ensures ContactAfter(text, ContactAfter(text, m)) == ContactAfter(text, m)
  {
    var m1 := Put(m, "email", Email(text));
    var r := Put(m1, "phone", Phone(text));
    PutKept(m1, "email", Email(text), "phone", Phone(text));
    PutSettled(r, "email", Email(text));
    PutSettled(r, "phone", Phone(text));
  }

  lemma ServicesTwice(text: string, s: seq<Service>)
    ensures ServicesAfter(text, ServicesAfter(text, s)) == ServicesAfter(text, s)
  {
    var r := ServicesAfter(text, s);
    ServicesAppended(text, r);
    assert r[..3] == r;
  }
}
