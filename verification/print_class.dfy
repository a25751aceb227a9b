/** `MessagePrinter::GetMessage`: the greeting built for a name. */
module PrintClass {

  const Prefix: string := "Hello, "
  const Stranger: string := "Hello, stranger!"

  /** The greeting for `name`: the stranger greeting for an empty name,
      otherwise the name framed by the common prefix and an exclamation mark. */
  function GetMessage(name: string): (r: string)
    ensures name == [] ==> r == Stranger
    ensures name != [] ==> |r| == |name| + 8 && r[7..|r| - 1] == name
    ensures |r| >= 8 && r[..7] == Prefix && r[|r| - 1] == '!'
  {
    if name == [] then Stranger else Prefix + name + "!"
  }

  /** Distinct non-empty names get distinct greetings: the name can be read
      back from the greeting. */
  lemma GetMessageInjective(a: string, b: string)
    requires a != [] && b != []
    requires GetMessage(a) == GetMessage(b)
    ensures a == b
  {
    var ra, rb := GetMessage(a), GetMessage(b);
    assert a == ra[7..|ra| - 1];
  }

  /** The example tests/test_print_class.cpp checks: "World" is greeted as
      "Hello, World!". */
  lemma GetMessageWorld()
    ensures GetMessage("World") == "Hello, World!"
  {
  }
}
