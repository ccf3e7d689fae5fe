/** `PageTransition`: the raw 32-bit navigation-transition word a tab record
    carries, and its two on-demand projections, the core kind held in the low
    byte and seven qualifier flags held in the top byte. */
module Transition {

  import Wire

  /** The word exactly as read from the record (`PageTransition(pub u32)`). */
  datatype PageTransition = PageTransition(raw: Wire.U32) {
    /** The word as a bit pattern, for the masks below. */
    function Bits(): bv32 { raw as bv32 }
  }

  datatype PageTransitionType =
    | Link | Typed | AutoBookmark | AutoSubframe | ManualSubframe | Generated
    | StartPage | FormSubmit | Reload | Keyword | KeywordGenerated

  /** `kind()`: a recognised kind, or the unrecognised low byte itself. */
  datatype KindResult = Ok(kind: PageTransitionType) | Err(code: bv8)

  datatype PageTransitionQualifiers = PageTransitionQualifiers(
    backForward: bool,
    addressBar: bool,
    homepage: bool,
    chainStart: bool,
    redirectChainEnd: bool,
    clientRedirect: bool,
    serverRedirect: bool)

  /** The discriminant each kind is declared with (`#[repr(u8)]`). */
  function Code(k: PageTransitionType): (r: bv8)
    ensures r <= 10
  {
    match k
    case Link => 0
    case Typed => 1
    case AutoBookmark => 2
    case AutoSubframe => 3
    case ManualSubframe => 4
    case Generated => 5
    case StartPage => 6
    case FormSubmit => 7
    case Reload => 8
    case Keyword => 9
    case KeywordGenerated => 10
  }

  /** The low byte of the transition word. */
  function LowByte(t: PageTransition): bv8
  {
    (t.Bits() & 0xFF) as bv8
  }

  /** `kind()`: the kind whose discriminant is the low byte, and `Err` with
      that byte when no kind has it. */
  function Kind(t: PageTransition): (r: KindResult)
    ensures r.Ok? <==> LowByte(t) <= 10
    ensures r.Ok? ==> Code(r.kind) == LowByte(t)
    ensures r.Err? ==> r.code == LowByte(t)
  {
    match LowByte(t)
    case 0 => Ok(Link)
    case 1 => Ok(Typed)
    case 2 => Ok(AutoBookmark)
    case 3 => Ok(AutoSubframe)
    case 4 => Ok(ManualSubframe)
    case 5 => Ok(Generated)
    case 6 => Ok(StartPage)
    case 7 => Ok(FormSubmit)
    case 8 => Ok(Reload)
    case 9 => Ok(Keyword)
    case 10 => Ok(KeywordGenerated)
    case id => Err(id)
  }

  /** `qualifiers()`: back_forward and address_bar are set when their bit is
      present; the other five are set when their bit is absent. */
  function Qualifiers(t: PageTransition): (r: PageTransitionQualifiers)
    ensures t.Bits() & QualifierMask == QualifierBits(r)
  {
    PageTransitionQualifiers(
      backForward := t.Bits() & 0x0100_0000 == 0x0100_0000,
      addressBar := t.Bits() & 0x0200_0000 == 0x0200_0000,
      homepage := t.Bits() & 0x0400_0000 != 0x0400_0000,
      chainStart := t.Bits() & 0x1000_0000 != 0x1000_0000,
      redirectChainEnd := t.Bits() & 0x2000_0000 != 0x2000_0000,
      clientRedirect := t.Bits() & 0x4000_0000 != 0x4000_0000,
      serverRedirect := t.Bits() & 0x8000_0000 != 0x8000_0000)
  }

  /** The seven bits that `qualifiers()` examines. */
  const QualifierMask: bv32 := 0xF700_0000

  /** The qualifier bits of a transition word that projects to `q`:
      the reference definition `Qualifiers` is checked against. */
  function QualifierBits(q: PageTransitionQualifiers): (r: bv32)
    ensures r & QualifierMask == r
  {
    (if q.backForward then 0x0100_0000 else 0)
    | (if q.addressBar then 0x0200_0000 else 0)
    | (if q.homepage then 0 else 0x0400_0000)
    | (if q.chainStart then 0 else 0x1000_0000)
    | (if q.redirectChainEnd then 0 else 0x2000_0000)
    | (if q.clientRedirect then 0 else 0x4000_0000)
    | (if q.serverRedirect then 0 else 0x8000_0000)
  }

  /** The qualifiers are exactly the seven qualifier bits: a word projects to `q`
      if and only if its qualifier bits are those of `q`, whatever its other bits. */
  lemma QualifiersExact(t: PageTransition, q: PageTransitionQualifiers)
    ensures Qualifiers(t) == q <==> t.Bits() & QualifierMask == QualifierBits(q)
  {
  }

  /** The kind depends on nothing but the low byte, and each kind is the
      projection of exactly the words whose low byte is its discriminant. */
  lemma KindExact(t: PageTransition, k: PageTransitionType)
    ensures Kind(t) == Ok(k) <==> LowByte(t) == Code(k)
  {
  }

  /** A transition word whose bits are those of a kind and a set of
      qualifiers projects back to both of them. */
  lemma ProjectionsOfWord(t: PageTransition, k: PageTransitionType, q: PageTransitionQualifiers)
    requires t.Bits() == QualifierBits(q) | Code(k) as bv32
    ensures Kind(t) == Ok(k) && Qualifiers(t) == q
  {
    assert LowByte(t) == Code(k);
    QualifiersExact(t, q);
  }

  /** The transition of a restored page: kind Reload, back_forward and
      address_bar clear, the other five set, exactly when the low byte is 8
      and none of the seven qualifier bits is present. */
  lemma RestoredReload(t: PageTransition)
    ensures (Kind(t) == Ok(Reload)
             && Qualifiers(t) == PageTransitionQualifiers(false, false, true, true, true, true, true))
            <==> (LowByte(t) == 8 && t.Bits() & QualifierMask == 0)
  {
    KindExact(t, Reload);
    QualifiersExact(t, PageTransitionQualifiers(false, false, true, true, true, true, true));
  }
}
