/** Finding a framework-owned `name=` or `note=` selector in raw stage text. */
module Selectors {
  import opened Results
  import opened Text
  import opened QuoteScan

  /** `key=` starts a shell word at `i`, outside quotes. */
  predicate SelectorAt(text: string, key: string, i: nat) {
    && i < |text| && LiveAt(text, i) && !IsSpecial(text[i])
    && key + "=" <= text[i..]
    && (i == 0 || IsSpace(text[i - 1]))
  }

  method FindUnquotedTextSelector(text: string, key: string) returns (r: Option<nat>)
    ensures r.Some? ==> SelectorAt(text, key, r.value)
    ensures r.Some? ==> forall j: nat :: j < r.value ==> !SelectorAt(text, key, j)
    ensures r.None? ==> forall i: nat :: !SelectorAt(text, key, i)
  {
    var quote := Unquoted;
    var escaped := false;
    var needle := key + "=";
    for index := 0 to |text|
      invariant State(quote, escaped) == After(text[..index], START)
      invariant forall j: nat :: j < index ==> !SelectorAt(text, key, j)
    {
      var c := text[index];
      AfterOneMore(text, index, START);
      if escaped {
        escaped := false;
        continue;
      }
      if c == '\\' {
        escaped := true;
        continue;
      }
      if quote != Unquoted {
        if c == quote.mark {
          quote := Unquoted;
        }
        continue;
      }
      if IsQuote(c) {
        quote := Open(c);
        continue;
      }
      if needle <= text[index..] && (index == 0 || IsSpace(text[index - 1])) {
        return Some(index);
      }
    }
    return None;
  }
}
