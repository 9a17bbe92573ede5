/**
 * The value converters of the two config trees (ValueConverter in
 * tree_config.hpp, PropertyConverter in property_node.hpp). Both files
 * carry the same code; one model stands for both. A converter turns a
 * value into its stored text and tries to read a value back from text.
 * Only the string and bool converters are modelled.
 */
module Converters {
  import opened Wrappers

  datatype Converter<!T> = Converter(load: string -> Option<T>, store: T -> string)

  /** Storing a value and loading the text back gives the value. */
  ghost predicate RoundTrips<T(!new)>(c: Converter<T>) {
    forall x :: c.load(c.store(x)) == Some(x)
  }

  /** The converter of types convertible to std::string: the text is the value. */
  function Text(): (c: Converter<string>)
    ensures RoundTrips(c)
    ensures forall v :: c.load(v) == Some(v)
  {
    Converter(v => Some(v), v => v)
  }

  /** std::tolower in the "C" locale. */
  function ToLower(c: char): char {
    if 'A' <= c <= 'Z' then (c as int + 32) as char else c
  }

  /** v spells w (which is in lower case) ignoring the case of letters. */
  predicate SpellsIgnoringCase(v: string, w: string) {
    |v| == |w| && forall i | 0 <= i < |w| :: ToLower(v[i]) == w[i]
  }

  /** What the private load(bool&, value, processed) leaves behind: the variable and the count of characters taken. */
  datatype BoolScan = BoolScan(var_: bool, processed: nat)

  function ScanBool(var_: bool, value: string): BoolScan {
    if |value| == 4 && ToLower(value[0]) == 't' && ToLower(value[1]) == 'r'
       && ToLower(value[2]) == 'u' && ToLower(value[3]) == 'e'
    then BoolScan(true, |value|)
    else if |value| == 5 && ToLower(value[0]) == 'f' && ToLower(value[1]) == 'a'
       && ToLower(value[2]) == 'l' && ToLower(value[3]) == 's' && ToLower(value[4]) == 'e'
    then BoolScan(false, |value|)
    else BoolScan(var_, 0)
  }

  /**
   * loadValue for bool as written: scan into an uninitialized temporary and
   * accept when every character was processed. The temporary's unspecified
   * contents are the parameter uninitialized.
   */
  function LoadBoolAsWritten(value: string, uninitialized: bool): Option<bool> {
    var scan := ScanBool(uninitialized, value);
    if scan.processed == |value| then Some(scan.var_) else None
  }

  /** The empty text passes the check processed == size() and yields whatever the temporary held. */
  lemma AsWrittenAcceptsEmpty(uninitialized: bool)
    ensures LoadBoolAsWritten("", uninitialized) == Some(uninitialized)
    ensures LoadBoolAsWritten("", true) != LoadBoolAsWritten("", false)
  {
  }

  /** loadValue for bool as intended: "true" or "false" in any case, and nothing else. */
  function LoadBool(value: string): (r: Option<bool>)
    ensures r == Some(true) <==> SpellsIgnoringCase(value, "true")
    ensures r == Some(false) <==> SpellsIgnoringCase(value, "false")
    ensures r.None? <==> !SpellsIgnoringCase(value, "true") && !SpellsIgnoringCase(value, "false")
  {
    var scan := ScanBool(false, value);
    if |value| > 0 && scan.processed == |value| then Some(scan.var_) else None
  }

  /** The intended load agrees with the written one on every text but the empty one. */
  lemma LoadBoolAgreesOnNonEmpty(value: string, uninitialized: bool)
    requires value != ""
    ensures LoadBool(value) == LoadBoolAsWritten(value, uninitialized)
  {
  }

  /** storeValue for bool. */
  function StoreBool(b: bool): string {
    if b then "true" else "false"
  }

  /** The bool converter: stores "true"/"false" and reads them back. */
  function Bool(): (c: Converter<bool>)
    ensures RoundTrips(c)
  {
    Converter(LoadBool, StoreBool)
  }
}
