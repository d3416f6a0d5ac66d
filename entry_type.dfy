/**
 * Labels for the memory-map entry types of the Limine boot protocol. The
 * numeric codes are the protocol's; only their distinctness matters here.
 */
module EntryType {
  import Wrappers

  const USABLE: nat := 0
  const RESERVED: nat := 1
  const ACPI_RECLAIMABLE: nat := 2
  const ACPI_NVS: nat := 3
  const BAD_MEMORY: nat := 4
  const BOOTLOADER_RECLAIMABLE: nat := 5
  const EXECUTABLE_AND_MODULES: nat := 6
  const FRAMEBUFFER: nat := 7

  /** The codes that have a label of their own, in the order the match lists them. */
  const KnownCodes: seq<nat> := [USABLE, RESERVED, ACPI_RECLAIMABLE, ACPI_NVS, BAD_MEMORY,
                                 BOOTLOADER_RECLAIMABLE, EXECUTABLE_AND_MODULES, FRAMEBUFFER]

  /** Their labels, position by position. */
  const KnownLabels: seq<string> := ["Usable", "Reserved", "ACPI Reclaimable", "ACPI NVS", "Bad Memory",
                                     "Bootloader Reclaimable", "Executable and Modules", "Framebuffer"]

  const UNKNOWN_LABEL: string := "Unknown"

  /** `entry_type_to_str`: total, with "Unknown" for any code it does not list. */
  function EntryTypeToStr(typ: nat): (name: string)
    ensures typ in KnownCodes <==> name != UNKNOWN_LABEL
    ensures forall j :: 0 <= j < |KnownCodes| && KnownCodes[j] == typ ==> name == KnownLabels[j]
  {
    if typ == USABLE then "Usable"
    else if typ == RESERVED then "Reserved"
    else if typ == ACPI_RECLAIMABLE then "ACPI Reclaimable"
    else if typ == ACPI_NVS then "ACPI NVS"
    else if typ == BAD_MEMORY then "Bad Memory"
    else if typ == BOOTLOADER_RECLAIMABLE then "Bootloader Reclaimable"
    else if typ == EXECUTABLE_AND_MODULES then "Executable and Modules"
    else if typ == FRAMEBUFFER then "Framebuffer"
    else "Unknown"
  }

  /** The label -> code partner: which code a label names, if any. */
  function CodeOfLabel(name: string): (r: Wrappers.Option<nat>)
    ensures r.Some? ==> r.value in KnownCodes
  {
    if name == "Usable" then Wrappers.Some(USABLE)
    else if name == "Reserved" then Wrappers.Some(RESERVED)
    else if name == "ACPI Reclaimable" then Wrappers.Some(ACPI_RECLAIMABLE)
    else if name == "ACPI NVS" then Wrappers.Some(ACPI_NVS)
    else if name == "Bad Memory" then Wrappers.Some(BAD_MEMORY)
    else if name == "Bootloader Reclaimable" then Wrappers.Some(BOOTLOADER_RECLAIMABLE)
    else if name == "Executable and Modules" then Wrappers.Some(EXECUTABLE_AND_MODULES)
    else if name == "Framebuffer" then Wrappers.Some(FRAMEBUFFER)
    else Wrappers.None
  }

  /** A known code can be read back from its label, so no two known codes share a label. */
  lemma LabelIdentifiesCode(typ: nat)
    ensures typ in KnownCodes ==> CodeOfLabel(EntryTypeToStr(typ)) == Wrappers.Some(typ)
    ensures typ !in KnownCodes ==> CodeOfLabel(EntryTypeToStr(typ)) == Wrappers.None
  {
  }

  /** Restricted to the known codes the classifier is injective. */
  lemma KnownLabelsInjective(a: nat, b: nat)
    requires a in KnownCodes && b in KnownCodes
    requires EntryTypeToStr(a) == EntryTypeToStr(b)
    ensures a == b
  {
    LabelIdentifiesCode(a);
    LabelIdentifiesCode(b);
  }
}
