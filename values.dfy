/** The JavaScript values a CSV cell can hold once `d3.csv` has parsed the
    file, together with the two absent values the pipeline passes around. */
module JsValues {
  /** `undefined` (a missing header, or `getField` finding nothing), `null`,
      or a string cell. */
  datatype JsValue = Undefined | Null | Text(s: string)
}
