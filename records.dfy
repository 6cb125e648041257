/** The scraped document record as the spiders build it and as the RDF
    transformer reads it back: a JSON object with `id`, `url`,
    `scraped_at`, the `field_*` entries and, for a failed fetch, `error`. */
module Records {

  datatype Option<T> = None | Some(value: T)

  /** The eight `field_*` entries of a record. */
  datatype Field = Title | Seccion | Personas | Lugares | PalabrasClave | Content | Notas | Traduccion

  /** The JSON key of a field. */
  function Key(f: Field): string {
    match f
    case Title => "field_1_title"
    case Seccion => "field_2_seccion"
    case Personas => "field_3_personas"
    case Lugares => "field_4_lugares"
    case PalabrasClave => "field_5_palabras_clave"
    case Content => "field_6_content"
    case Notas => "field_7_notas"
    case Traduccion => "field_8_traduccion"
  }

  /** The digit after "field_" numbers the field. */
  function Number(f: Field): (n: nat)
    ensures 1 <= n <= 8
  {
    match f
    case Title => 1
    case Seccion => 2
    case Personas => 3
    case Lugares => 4
    case PalabrasClave => 5
    case Content => 6
    case Notas => 7
    case Traduccion => 8
  }

  /** Every key is "field_", the field's number, '_' and a name. */
  lemma {:induction false} KeyShape(f: Field)
    ensures |Key(f)| > 7 && Key(f)[..6] == "field_" && Key(f)[6] == ('0' as int + Number(f)) as char && Key(f)[7] == '_'
  {
  }

  /** Different fields have different JSON keys. */
  lemma {:induction false} KeyInjective(f: Field, g: Field)
    requires Key(f) == Key(g)
    ensures f == g
  {
    KeyShape(f);
    KeyShape(g);
    assert Number(f) == Number(g);
  }

  /** One document. `id` is `None` when the object has no `id` key (the
      single-page spider writes none) and `error` is `None` when there is
      no `error` key; `fields` maps each `field_*` entry present to its
      value, `None` standing for JSON `null`. */
  datatype Record = Record(
    id: Option<int>,
    url: string,
    scrapedAt: string,
    fields: map<Field, Option<string>>,
    error: Option<string>)

  /** `doc.get(key)` for a `field_*` key: `None` when the key is missing. */
  function Get(doc: Record, key: Field): Option<string> {
    if key in doc.fields then doc.fields[key] else None
  }

  /** Python truthiness of an optional string: present and non-empty. */
  predicate Truthy(v: Option<string>) {
    v.Some? && v.value != []
  }
}
