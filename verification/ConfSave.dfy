// Writing a configuration tree as text (the snd_config_save family of src/conf.c).

module ConfSave {
  import opened ConfText
  import opened ConfTree
  import opened ConfParse

  // Characters that make string_print put the string between quotes.
  predicate ForcesQuotes(c: char) {
    c < ' ' || c >= '\U{7F}' || c in " =;,.{}'\""
  }

  predicate IsBare(s: string, id: bool) {
    s != "" && (id || !(IsDigit(s[0]) || s[0] == '-')) && forall c :: c in s ==> !ForcesQuotes(c)
  }

  // "\\%04o"
  function OctalEscape(c: char): string {
    var n := c as int;
    ['\\', '0' + (n / 512 % 8) as char, '0' + (n / 64 % 8) as char,
     '0' + (n / 8 % 8) as char, '0' + (n % 8) as char]
  }

  function Escape(c: char): string {
    if c == '\n' then "\\n" else if c == '\t' then "\\t" else if c == VT then "\\v"
    else if c == BS then "\\b" else if c == '\r' then "\\r" else if c == FF then "\\f"
    else if c == '\'' then "\\'"
    else if ' ' <= c < '\U{7F}' then [c]
    else OctalEscape(c)
  }

  function EscapeAll(s: string): string {
    if s == "" then "" else Escape(s[0]) + EscapeAll(s[1..])
  }

  // string_print
  function StringPrint(s: string, id: bool): string {
    if IsBare(s, id) then s else "'" + EscapeAll(s) + "'"
  }

  // id_print, for a node below `ids[..|ids|-1]`, which are joined with dots
  function IdPrint(ids: seq<string>): string {
    if ids == [] then ""
    else if |ids| == 1 then StringPrint(ids[0], true)
    else StringPrint(ids[0], true) + "." + IdPrint(ids[1..])
  }

  function Tabs(level: nat): string {
    seq(level, _ => '\t')
  }

  // "%ld"
  function IntText(i: int): string {
    if i < 0 then "-" + DigitsText(-i) else DigitsText(i)
  }

  // _snd_config_save_node_value
  function SaveValue(node: Node, level: nat): string
    decreases node
  {
    match node
    case Integer(i) => IntText(i)
    case Integer64(i) => IntText(i)
    case Real(text) => text
    case Str(s) => StringPrint(s, false)
    case Compound(_, fields) => "{\n" + SaveChildren(fields, level + 1, []) + Tabs(level) + "}"
  }

  // _snd_config_save_children, below the joined compounds `prefix`
  function SaveChildren(fields: Fields, level: nat, prefix: seq<string>): string
    decreases fields
  {
    if fields == [] then ""
    else SaveField(fields[0], level, prefix) + SaveChildren(fields[1..], level, prefix)
  }

  function SaveField(f: Field, level: nat, prefix: seq<string>): string
    decreases f
  {
    if f.node.Compound? && f.node.join then SaveChildren(f.node.fields, level, prefix + [f.id])
    else Tabs(level) + IdPrint(prefix + [f.id]) + " " + SaveValue(f.node, level) + "\n"
  }

  // snd_config_save on a compound
  function Save(fields: Fields): string {
    SaveChildren(fields, 0, [])
  }
}
