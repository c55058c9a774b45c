/**
 Item definitions and item stacks, as src/itemdef.cpp and src/inventory.h keep them.
 */
module Items {
  import opened Basics

  datatype ItemDefinition = ItemDefinition(groups: map<string, int>, isTool: bool, stackMax: u16)

  datatype ItemDefManager = ItemDefManager(
    definitions: map<string, ItemDefinition>,
    aliases: map<string, string>,
    unknown: ItemDefinition)
  {
    function GetAlias(name: string): string {
      if name in aliases then aliases[name] else name
    }

    predicate IsKnown(name: string) {
      GetAlias(name) in definitions
    }

    function Get(name: string): ItemDefinition {
      var n := GetAlias(name);
      if n in definitions then definitions[n] else unknown
    }
  }

  // A missing group reads as 0.
  function ItemGroupGet(groups: map<string, int>, name: string): int {
    if name in groups then groups[name] else 0
  }

  type Metadata = map<string, string>

  datatype ItemStack = ItemStack(name: string, count: u16, wear: u16, metadata: Metadata)
  {
    predicate Empty() {
      count == 0
    }

    // A stack without items has no name left over, and the other way round.
    predicate WellFormed() {
      count == 0 <==> name == ""
    }
  }

  const NO_ITEM := ItemStack("", 0, 0, map[])
}
