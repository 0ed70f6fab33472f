/** The handlers' attribute loops (`for attr in &element.attributes { match
    attr.name ... }`) and what such a loop leaves behind, stated without the
    loop. */
module Attrs {
  import opened Results
  import opened Xml

  /** The state after running `step` over `attrs` in document order: the
      loop body applied first to `attrs[0]`, last to `attrs[|attrs| - 1]`. */
  function FoldAttrs<S>(attrs: seq<Attribute>, init: S, step: (S, Attribute) -> S): S
    decreases |attrs|
  {
    if |attrs| == 0 then init
    else step(FoldAttrs(attrs[..|attrs| - 1], init, step), attrs[|attrs| - 1])
  }

  /** Attribute values are taken as they are (`Some(attr.value.clone())`). */
  function KeepValue(v: string): Option<string> {
    Some(v)
  }

  /** The value parsed from the last attribute named `name` whose value
      `parse` accepts: what a loop arm `name => if let Some(v) = parse(value)
      { field = Some(v) }` leaves in a field that started as `None`. */
  function LastParsed<T>(attrs: seq<Attribute>, name: string, parse: string -> Option<T>): (r: Option<T>)
    ensures r.Some? <==> exists i :: 0 <= i < |attrs| && attrs[i].name == name && parse(attrs[i].value).Some?
    decreases |attrs|
  {
    if |attrs| == 0 then None
    else
      var a := attrs[|attrs| - 1];
      if a.name == name && parse(a.value).Some? then parse(a.value)
      else
        var r := LastParsed(attrs[..|attrs| - 1], name, parse);
        assert forall i :: 0 <= i < |attrs| - 1 ==> attrs[..|attrs| - 1][i] == attrs[i];
        r
  }

  /** The attribute `LastParsed` takes its value from: one with the name
      that parses, after which no attribute of that name parses. */
  lemma {:induction false} LastParsedIndex<T>(attrs: seq<Attribute>, name: string, parse: string -> Option<T>) returns (i: nat)
    requires LastParsed(attrs, name, parse).Some?
    ensures i < |attrs| && attrs[i].name == name && parse(attrs[i].value) == LastParsed(attrs, name, parse)
    ensures forall j :: i < j < |attrs| && attrs[j].name == name ==> parse(attrs[j].value).None?
    decreases |attrs|
  {
    var n := |attrs|;
    var a := attrs[n - 1];
    if a.name == name && parse(a.value).Some? {
      i := n - 1;
    } else {
      var prefix := attrs[..n - 1];
      i := LastParsedIndex(prefix, name, parse);
      assert forall j :: i < j < n - 1 ==> prefix[j] == attrs[j];
    }
  }

  /** The value of the last attribute named `name`, if any. */
  function LastValue(attrs: seq<Attribute>, name: string): (r: Option<string>)
    ensures r.Some? <==> exists i :: 0 <= i < |attrs| && attrs[i].name == name
  {
    LastParsed(attrs, name, KeepValue)
  }

  /** The attribute `LastValue` takes its value from: one with the name,
      after which no attribute has that name. */
  lemma LastValueIndex(attrs: seq<Attribute>, name: string) returns (i: nat)
    requires LastValue(attrs, name).Some?
    ensures i < |attrs| && attrs[i] == Attribute(name, LastValue(attrs, name).value)
    ensures forall j :: i < j < |attrs| ==> attrs[j].name != name
  {
    i := LastParsedIndex(attrs, name, KeepValue);
  }

  /** The value of the first attribute named `name`, if any
      (`attributes.iter().find(|a| a.name == name)`). */
  function FirstValue(attrs: seq<Attribute>, name: string): (r: Option<string>)
    ensures r.Some? <==> exists i :: 0 <= i < |attrs| && attrs[i].name == name
    ensures r.Some? ==>
      exists i :: 0 <= i < |attrs| && attrs[i] == Attribute(name, r.value) &&
        forall j :: 0 <= j < i ==> attrs[j].name != name
    decreases |attrs|
  {
    if |attrs| == 0 then None
    else if attrs[0].name == name then Some(attrs[0].value)
    else
      var r := FirstValue(attrs[1..], name);
      assert forall i :: 1 <= i < |attrs| ==> attrs[1..][i - 1] == attrs[i];
      r
  }

  /** One more attribute at the end: it wins when it has the name and parses. */
  lemma LastParsedSnoc<T>(a: seq<Attribute>, x: Attribute, name: string, parse: string -> Option<T>)
    ensures LastParsed(a + [x], name, parse)
         == if x.name == name && parse(x.value).Some? then parse(x.value) else LastParsed(a, name, parse)
  {
    assert (a + [x])[..|a + [x]| - 1] == a;
  }
}
