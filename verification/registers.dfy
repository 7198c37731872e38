/** The LM75 register map as the analyzer knows it: names, value widths, temperature registers. */
module Registers {

  import opened Bytes
  import Numerals

  /** The registers with a name; every other address is shown in hexadecimal. */
  const Catalog: map<Byte, string> :=
    map[0 := "Temperature", 1 := "Configuration", 2 := "Thyst", 3 := "Tos", 7 := "ProductID"]

  /** A register's display name: its catalog name, or `0x` and two upper-case hex digits. */
  function Name(reg: Byte): (name: string)
    ensures reg in Catalog ==> name == Catalog[reg]
    ensures reg !in Catalog ==>
      && |name| == 4 && name[..2] == "0x"
      && Numerals.IsNumeral(name[2..], 16) && Numerals.ValueOf(name[2..], 16) == reg
  {
    if reg in Catalog then Catalog[reg]
    else
      var name := "0x" + Numerals.Hex2(reg);
      assert name[2..] == Numerals.Hex2(reg);
      name
  }

  /** No two registers share a display name, so a report's name identifies its register. */
  lemma NameInjective(a: Byte, b: Byte)
    requires Name(a) == Name(b)
    ensures a == b
  {
    if a !in Catalog && b !in Catalog {
      assert Name(a)[2..] == Name(b)[2..];
    }
  }

  /** Bytes in a register's value: one for Configuration and ProductID, two for every other address. */
  function ValueLength(reg: Byte): (n: nat)
    ensures n == 1 || n == 2
    ensures n == 1 <==> reg == 1 || reg == 7
  {
    if reg == 1 || reg == 7 then 1 else 2
  }

  /** Temperature, Thyst and Tos hold temperatures; their values are decoded as such. */
  predicate IsTemperature(reg: Byte): (t: bool)
    ensures t <==> reg in Catalog && Catalog[reg] in {"Temperature", "Thyst", "Tos"}
  {
    reg == 0 || reg == 2 || reg == 3
  }

  /** The temperature registers are catalogued and are read as full 16-bit words. */
  lemma TemperatureRegistersAreWords(reg: Byte)
    requires IsTemperature(reg)
    ensures reg in Catalog && ValueLength(reg) == 2
  {
  }
}
