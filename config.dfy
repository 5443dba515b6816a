/** The catalog's fixed schema and the sake-style column names. */
module Config {

  const IdField := "id"
  const NameField := "name"
  const CategoryField := "category"
  const QuantityField := "quantity"
  const UpdatedAtField := "updated_at"
  /** Member name. */
  const MemberField := "会員氏名"
  /** Brewery. */
  const BreweryField := "蔵元"
  /** Region. */
  const RegionField := "地域"
  /** Rice-polishing ratio. */
  const PolishField := "精米歩合"
  /** Remarks. */
  const NoteField := "備考"
  /** Meeting (tasting session) number. */
  const MeetingField := "例会"
  /** Meeting date. */
  const MeetingDateField := "例会日時"

  const CoreFields: seq<string> := [IdField, NameField, CategoryField, QuantityField, UpdatedAtField]
  const ExtraFields: seq<string> :=
    [MemberField, BreweryField, RegionField, PolishField, NoteField, MeetingField, MeetingDateField]

  /** The canonical columns of the catalog, in their canonical order. */
  const TargetFields: seq<string> := CoreFields + ExtraFields

  /** Sake styles expected to arrive as indicator columns of an uploaded sheet. */
  const StyleCandidates: seq<string> := [
    "本醸造", "特別本醸造", "純米", "特別純米",
    "吟醸", "純米吟醸", "大吟醸", "純米大吟醸", "その他"
  ]
}
