/** How an address header writes a mailbox: its display name quoted or not, and its address. */
module AddressPrinter {
  import opened Address

  /** The chars that put a display name into quotes. */
  const SPECIALS: string := "()<>@,:;.\"[]\\"

  predicate HasSpecial(display: string) {
    exists i :: 0 <= i < |display| && display[i] in SPECIALS
  }

  /** Printable ASCII or TAB. */
  predicate IsPlainChar(c: char) {
    c == '\t' || ' ' <= c <= '~'
  }

  predicate IsPlain(text: string) {
    forall i :: 0 <= i < |text| ==> IsPlainChar(text[i])
  }

  /** Every `c` of the text from `i` on replaced. */
  function Replace(text: string, i: nat, c: char, with: string): string
    requires i <= |text|
    decreases |text| - i
  {
    if i == |text| then "" else (if text[i] == c then with else [text[i]]) + Replace(text, i + 1, c, with)
  }

  function Escape(text: string): string {
    Replace(Replace(text, 0, '\\', "\\\\"), 0, '"', "\\\"")
  }

  function QuoteName(text: string): string {
    if HasSpecial(text) then "\"" + Escape(text) + "\"" else text
  }

  /** The mailbox with the text `name` in place of its display name, which decides the quotes. */
  function Written(m: Mailbox, name: string): string {
    if m.displayName == "" then m.AddrSpec()
    else (if HasSpecial(m.displayName) then "\"" + Escape(name) + "\"" else name) + " <" + m.AddrSpec() + ">"
  }

  /** A text that may be written for a display name: a quoted one is written as it is. */
  predicate Fits(m: Mailbox, name: string) {
    && (m.displayName == "" ==> name == "")
    && (if HasSpecial(m.displayName) then name == m.displayName else !HasSpecial(name))
  }

  /** The texts from `i` on, each but the very first behind a comma and a space. */
  function JoinFrom(texts: seq<string>, i: nat): string
    requires i <= |texts|
    decreases |texts| - i
  {
    if i == |texts| then "" else (if i > 0 then ", " else "") + texts[i] + JoinFrom(texts, i + 1)
  }
}
