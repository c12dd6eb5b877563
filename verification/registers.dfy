/** The register bank of one controllable entity: three named namespaces of
    values behind one case-insensitive lookup surface. */
module Registers {
  import opened Wrappers
  import opened Text

  /** Device registers (declared by the concrete entity kind), special registers
      (the program counter) and general registers (`R0`, `R1`, ...). */
  datatype Bank = Bank(device: map<string, real>, special: map<string, real>, general: map<string, real>)

  /** What a reader of the bank sees: a device register hides a special one of the
      same name, which hides a general one. */
  function View(b: Bank): map<string, real> {
    b.general + b.special + b.device
  }

  /** The three key sets, which no register operation changes. */
  function Shape(b: Bank): (set<string>, set<string>, set<string>) {
    (b.device.Keys, b.special.Keys, b.general.Keys)
  }

  /** `GetRegisterIsValid`: the upper-cased name is a key of some namespace. */
  predicate IsValid(b: Bank, name: string) {
    var key := Upper(name);
    key in b.device || key in b.special || key in b.general
  }

  /** `GetRegisterValue` without its error path: the value from the first
      namespace, in device, special, general order, holding the upper-cased name. */
  function Lookup(b: Bank, name: string): (r: Option<real>)
    ensures r.Some? <==> IsValid(b, name)
  {
    var key := Upper(name);
    if key in b.device then Some(b.device[key])
    else if key in b.special then Some(b.special[key])
    else if key in b.general then Some(b.general[key])
    else None
  }

  /** A name is valid exactly when its upper-case form is a key of the merged
      view, and reading it yields the view's entry: the namespace order of the
      lookup is the precedence of the merge. */
  lemma LookupMatchesView(b: Bank, name: string)
    ensures IsValid(b, name) <==> Upper(name) in View(b)
    ensures Lookup(b, name) == if Upper(name) in View(b) then Some(View(b)[Upper(name)]) else None
  {
  }

  /** `SetRegisterValue` without its error path: overwrites the entry of the first
      namespace holding the upper-cased name. */
  function Store(b: Bank, name: string, v: real): (r: Option<Bank>)
    ensures r.Some? <==> IsValid(b, name)
  {
    var key := Upper(name);
    if key in b.device then Some(b.(device := b.device[key := v]))
    else if key in b.special then Some(b.(special := b.special[key := v]))
    else if key in b.general then Some(b.(general := b.general[key := v]))
    else None
  }

  /** A write never adds or removes a register: the key sets of all three
      namespaces stay as they were. */
  lemma StoreKeepsShape(b: Bank, name: string, v: real)
    requires IsValid(b, name)
    ensures Shape(Store(b, name, v).value) == Shape(b)
  {
    var key := Upper(name);
    if key in b.device {
      assert b.device[key := v].Keys == b.device.Keys;
    } else if key in b.special {
      assert b.special[key := v].Keys == b.special.Keys;
    } else {
      assert b.general[key := v].Keys == b.general.Keys;
    }
  }

  /** A write changes the merged view at the upper-cased name only, and leaves
      alone every namespace that precedes or follows the one written. */
  lemma StoreMatchesView(b: Bank, name: string, v: real)
    requires IsValid(b, name)
    ensures var r := Store(b, name, v).value;
      && View(r) == View(b)[Upper(name) := v]
      && (Upper(name) in b.device ==> r.special == b.special && r.general == b.general)
      && (Upper(name) !in b.device ==> r.device == b.device)
      && (Upper(name) in b.special ==> r.general == b.general)
      && (Upper(name) !in b.special ==> r.special == b.special)
  {
  }

  /** Names are looked up case-insensitively: two names with the same upper-case
      form denote the same register for reading and for writing. */
  lemma {:induction false} CaseInsensitive(b: Bank, n1: string, n2: string, v: real)
    requires Upper(n1) == Upper(n2)
    ensures IsValid(b, n1) <==> IsValid(b, n2)
    ensures Lookup(b, n1) == Lookup(b, n2)
    ensures Store(b, n1, v) == Store(b, n2, v)
  {
  }

  /** A name in any casing, in particular the lower-cased form an instruction token
      has, resolves to the same register as the name itself. */
  lemma {:induction false} LookupAnyCasing(b: Bank, name: string)
    ensures Lookup(b, Lower(name)) == Lookup(b, name)
    ensures Lookup(b, Upper(name)) == Lookup(b, name)
  {
    UpperOfLower(name);
    UpperIdempotent(name);
  }

  /** A write followed by a read of the same register returns the value written;
      a read of any other register returns what it returned before the write. */
  lemma StoreThenLookup(b: Bank, name: string, v: real, other: string)
    requires IsValid(b, name)
    ensures Store(b, name, v).Some?
    ensures Lookup(Store(b, name, v).value, name) == Some(v)
    ensures Upper(other) != Upper(name) ==>
              Lookup(Store(b, name, v).value, other) == Lookup(b, other)
  {
  }

  /** Writing back the value a register already holds leaves the bank as it was. */
  lemma StoreSame(b: Bank, name: string, v: real)
    requires Lookup(b, name) == Some(v)
    ensures Store(b, name, v) == Some(b)
  {
    var key := Upper(name);
    if key in b.device {
      assert b.device[key := v] == b.device;
    } else if key in b.special {
      assert b.special[key := v] == b.special;
    } else {
      assert b.general[key := v] == b.general;
    }
  }

  /** Of two writes to the same register only the second one shows. */
  lemma StoreTwice(b: Bank, name: string, x: real, y: real)
    requires IsValid(b, name)
    ensures Store(Store(b, name, x).value, name, y) == Store(b, name, y)
  {
    var key := Upper(name);
    if key in b.device {
      assert b.device[key := x][key := y] == b.device[key := y];
    } else if key in b.special {
      assert b.special[key := x][key := y] == b.special[key := y];
    } else {
      assert b.general[key := x][key := y] == b.general[key := y];
    }
  }

  /** The map with the same keys and every value 0. */
  function Zeroed(regs: map<string, real>): (r: map<string, real>)
    ensures r.Keys == regs.Keys
    ensures forall k :: k in r ==> r[k] == 0.0
  {
    map k | k in regs :: 0.0
  }

  /** `ResetAllRegisters`: the key sets of all three namespaces are kept and every
      register, the program counter included, reads 0. */
  function ResetAll(b: Bank): (r: Bank)
    ensures Shape(r) == Shape(b)
    ensures forall name :: IsValid(b, name) ==> Lookup(r, name) == Some(0.0)
  {
    Bank(Zeroed(b.device), Zeroed(b.special), Zeroed(b.general))
  }

  /** `ResetRegisters`: visits the keys one at a time and sets each one to 0. */
  method ResetRegisters(regs: map<string, real>) returns (r: map<string, real>)
    ensures r.Keys == regs.Keys
    ensures forall k :: k in r ==> r[k] == 0.0
  {
    r := regs;
    var pending := regs.Keys;
    while pending != {}
      invariant pending <= regs.Keys
      invariant r.Keys == regs.Keys
      invariant forall k :: k in r && k !in pending ==> r[k] == 0.0
      decreases pending
    {
      var k :| k in pending;
      r := r[k := 0.0];
      pending := pending - {k};
    }
  }

  /** `ResetAllRegisters` as the C# code performs it: one reset per namespace;
      it agrees with `ResetAll`. */
  method ResetAllRegisters(b: Bank) returns (r: Bank)
    ensures r == ResetAll(b)
  {
    var general := ResetRegisters(b.general);
    var special := ResetRegisters(b.special);
    var device := ResetRegisters(b.device);
    r := Bank(device, special, general);
  }

  /** The number of general registers an entity gets. */
  const GeneralRegisterCount: nat := 4

  /** The name of general register `i`: `"R" + i`. */
  function GeneralName(i: nat): string {
    "R" + Decimal(i)
  }

  /** The general-register generation loop of `Start`: `count` registers named
      `R0`, `R1`, ..., each holding 0. */
  method GenerateGeneralRegisters(count: nat) returns (regs: map<string, real>)
    ensures regs.Keys == set i | 0 <= i < count :: GeneralName(i)
    ensures forall k :: k in regs ==> regs[k] == 0.0
  {
    regs := map[];
    var i := 0;
    while i < count
      invariant i <= count
      invariant regs.Keys == set j | 0 <= j < i :: GeneralName(j)
      invariant forall k :: k in regs ==> regs[k] == 0.0
    {
      assert (set j | 0 <= j < i + 1 :: GeneralName(j)) == (set j | 0 <= j < i :: GeneralName(j)) + {GeneralName(i)};
      regs := regs[GeneralName(i) := 0.0];
      i := i + 1;
    }
  }

  /** With the default count the general registers are exactly R0 to R3. */
  lemma DefaultGeneralNames()
    ensures (set i | 0 <= i < GeneralRegisterCount :: GeneralName(i)) == {"R0", "R1", "R2", "R3"}
  {
    var names := set i | 0 <= i < GeneralRegisterCount :: GeneralName(i);
    assert GeneralName(0) == "R0" && GeneralName(1) == "R1";
    assert GeneralName(2) == "R2" && GeneralName(3) == "R3";
    forall n | n in names
      ensures n in {"R0", "R1", "R2", "R3"}
    {
      var i :| 0 <= i < GeneralRegisterCount && n == GeneralName(i);
      assert i == 0 || i == 1 || i == 2 || i == 3;
    }
  }
}
