/** The entries of the result map. The extractor names them by constants of
    its parameter enum; each constant carries the key string the map is
    filled under. */
module Keys {
  import opened JavaText

  datatype Key =
    | Street | House | PostalCode | City
    | Vehicles | Remarks | Reason | Resources | Location | Roster | Log

  /** The key string of each entry. Street, house number, postal code and
      city take theirs from the host application's own key list, which is
      stood in for by placeholders. */
  function Name(k: Key): String
  {
    match k
    case Street => "street"
    case House => "house"
    case PostalCode => "postalCode"
    case City => "city"
    case Vehicles => "vehicles"
    case Remarks => "custom_bemerkung"
    case Reason => "custom_einsatzgrund"
    case Resources => "custom_einsatzmittel"
    case Location => "custom_einsatzort"
    case Roster => "custom_vehicles_alarmtext"
    case Log => "custom_zerlegung_log"
  }

  /** No two entries share a key string, so no stage overwrites another
      stage's entry. */
  lemma NamesDistinct(a: Key, b: Key)
    requires a != b
    ensures Name(a) != Name(b)
  {
  }
}
