/**
 * `BrandingInfoServiceImpl`: the shop's single branding record (row id 1),
 * read as a DTO and overwritten field by field.
 */
module BrandingInfoService {
  import opened Wrappers
  import opened Store
  import opened Errors

  /** The `BrandingInfo` entity. */
  datatype BrandingInfo = BrandingInfo(
    id: int,
    brandName: string,
    brandLogo: string,
    facebookLink: string,
    whatsappLink: string,
    instagramLink: string,
    tiktokLink: string,
    phoneNumber: string,
    email: string,
    address: string)

  /** The `BrandingInfoDto` record, components in declaration order. */
  datatype BrandingInfoDto = BrandingInfoDto(
    id: int,
    brandName: string,
    brandLogo: string,
    facebookLink: string,
    whatsappLink: string,
    instagramLink: string,
    tiktokLink: string,
    phoneNumber: string,
    email: string,
    address: string)

  type Table = seq<BrandingInfo>

  /** The id of the one record the service reads and writes. */
  const SingletonId: int := 1

  const NotFoundMessage: string := "Branding info not found"

  /** The mapper's `toDto`: every component from the same-named field. */
  function ToDto(e: BrandingInfo): BrandingInfoDto {
    BrandingInfoDto(e.id, e.brandName, e.brandLogo, e.facebookLink, e.whatsappLink,
      e.instagramLink, e.tiktokLink, e.phoneNumber, e.email, e.address)
  }

  function IsSingleton(): BrandingInfo -> bool {
    (e: BrandingInfo) => e.id == SingletonId
  }

  /** `getBrandingInfo`: the record with id 1 as a DTO, or null when there is none. */
  function GetBrandingInfo(t: Table): (r: Option<BrandingInfoDto>)
    ensures r.None? <==> forall i :: 0 <= i < |t| ==> t[i].id != SingletonId
    ensures r.Some? ==> r.value.id == SingletonId
    ensures r.Some? ==> exists i :: 0 <= i < |t| && t[i].id == SingletonId && ToDto(t[i]) == r.value
  {
    match Find(t, IsSingleton())
    case None => None
    case Some(e) => Some(ToDto(e))
  }

  /** The nine setters of `updateBrandingInfo`: every field but the id comes from the DTO. */
  function Overwrite(e: BrandingInfo, dto: BrandingInfoDto): (r: BrandingInfo)
    ensures r.id == e.id
    ensures ToDto(r) == dto.(id := e.id)
  {
    e.(brandName := dto.brandName, brandLogo := dto.brandLogo, facebookLink := dto.facebookLink,
      instagramLink := dto.instagramLink, whatsappLink := dto.whatsappLink, tiktokLink := dto.tiktokLink,
      phoneNumber := dto.phoneNumber, email := dto.email, address := dto.address)
  }

  /**
   * `updateBrandingInfo` as written: the record is overwritten and saved, but
   * the returned DTO is built positionally with the instagram link in the
   * whatsapp slot and the whatsapp link in the instagram slot.
   */
  function UpdateBrandingInfoAsWritten(t: Table, dto: BrandingInfoDto): (r: Result<(Table, BrandingInfoDto), Exception>)
    ensures r.Err? <==> forall i :: 0 <= i < |t| ==> t[i].id != SingletonId
    ensures r.Err? ==> r.error == Runtime(NotFoundMessage)
    ensures r.Ok? ==> r.value.1.whatsappLink == dto.instagramLink && r.value.1.instagramLink == dto.whatsappLink
    ensures r.Ok? ==> r.value.1.(whatsappLink := dto.whatsappLink, instagramLink := dto.instagramLink) == dto.(id := SingletonId)
    ensures r.Ok? ==> |r.value.0| == |t|
    ensures r.Ok? ==> forall i :: 0 <= i < |t| && t[i].id != SingletonId ==> r.value.0[i] == t[i]
    ensures r.Ok? ==> GetBrandingInfo(r.value.0) == Some(dto.(id := SingletonId))
  {
    match Find(t, IsSingleton())
    case None => Err(Runtime(NotFoundMessage))
    case Some(e) =>
      var saved := Overwrite(e, dto);
      FindAfterReplace(t, IsSingleton(), saved);
      Ok((Store.Update(t, IsSingleton(), _ => saved),
        BrandingInfoDto(saved.id, saved.brandName, saved.brandLogo, saved.facebookLink, saved.instagramLink,
          saved.whatsappLink, saved.tiktokLink, saved.phoneNumber, saved.email, saved.address)))
  }

  /**
   * Whenever the two links differ, the as-written answer disagrees with what
   * the very next `getBrandingInfo` returns.
   */
  lemma AsWrittenAnswerDisagreesWithStore(t: Table, dto: BrandingInfoDto)
    requires UpdateBrandingInfoAsWritten(t, dto).Ok?
    requires dto.whatsappLink != dto.instagramLink
    ensures GetBrandingInfo(UpdateBrandingInfoAsWritten(t, dto).value.0).Some?
    ensures GetBrandingInfo(UpdateBrandingInfoAsWritten(t, dto).value.0).value != UpdateBrandingInfoAsWritten(t, dto).value.1
  {
    var e := Find(t, IsSingleton()).value;
    var saved := Overwrite(e, dto);
    FindAfterReplace(t, IsSingleton(), saved);
  }

  /** `updateBrandingInfo` answering with the saved record, as the mapper would. */
  function UpdateBrandingInfo(t: Table, dto: BrandingInfoDto): (r: Result<(Table, BrandingInfoDto), Exception>)
    ensures r.Err? <==> forall i :: 0 <= i < |t| ==> t[i].id != SingletonId
    ensures r.Err? ==> r.error == Runtime(NotFoundMessage)
    ensures r.Ok? ==> r.value.1 == dto.(id := SingletonId)
    ensures r.Ok? ==> |r.value.0| == |t|
    ensures r.Ok? ==> forall i :: 0 <= i < |t| && t[i].id != SingletonId ==> r.value.0[i] == t[i]
  {
    match Find(t, IsSingleton())
    case None => Err(Runtime(NotFoundMessage))
    case Some(e) =>
      var saved := Overwrite(e, dto);
      Ok((Store.Update(t, IsSingleton(), _ => saved), ToDto(saved)))
  }

  /** After an update the next read returns exactly what the update answered. */
  lemma UpdateThenGet(t: Table, dto: BrandingInfoDto)
    requires UpdateBrandingInfo(t, dto).Ok?
    ensures GetBrandingInfo(UpdateBrandingInfo(t, dto).value.0) == Some(UpdateBrandingInfo(t, dto).value.1)
  {
    var e := Find(t, IsSingleton()).value;
    var saved := Overwrite(e, dto);
    FindAfterReplace(t, IsSingleton(), saved);
  }

  /** Writing back what was read changes nothing a later read can see. */
  lemma UpdateWithCurrentIsInvisible(t: Table)
    requires GetBrandingInfo(t).Some?
    ensures UpdateBrandingInfo(t, GetBrandingInfo(t).value).Ok?
    ensures GetBrandingInfo(UpdateBrandingInfo(t, GetBrandingInfo(t).value).value.0) == GetBrandingInfo(t)
  {
    UpdateThenGet(t, GetBrandingInfo(t).value);
  }
}
