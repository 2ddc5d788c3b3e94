/** Property lists: trees of strings, arrays and dictionaries. */
module PropertyList {

  datatype Plist =
    | Str(text: string)
    | Arr(items: seq<Plist>)
    | Dict(entries: map<string, Plist>)
}
