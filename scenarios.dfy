/** Sequences of driver calls that the individual contracts combine into, as a user of the
    character device, the debugfs listing and the sysfs attributes sees them. */
module Scenarios {

  import opened Types
  import opened Events
  import opened AsicDiag
  import Sysfs

  /** Closing a session lets the next open succeed. */
  method ReopenAfterRelease(d: Device) returns (first: int, second: int)
    modifies d`isOpen
    ensures first == 0 && second == 0 && d.isOpen
  {
    first := d.Release();
    second := d.Open();
  }

  /** A second open while the first session lasts is refused and the session stays open. */
  method OpenTwice(d: Device) returns (first: int, second: int)
    requires !d.isOpen
    modifies d`isOpen
    ensures first == 0 && second == -EBUSY && d.isOpen
  {
    first := d.Open();
    second := d.Open();
  }

  /** The listing is destructive: with no interrupt in between, a second listing is empty. */
  method ListTwice(d: Device) returns (first: string, second: string)
    requires d.Valid()
    modifies d`fifo
    ensures first == Listing(Records(old(d.fifo))) && second == "" && d.fifo == []
  {
    first := d.EventsShow();
    second := d.EventsShow();
  }

  /** What a register attribute shows, stored back through the same attribute, leaves the
      register as it was; and showing it again gives the same text. */
  method ShowThenStore(d: Device, i: nat) returns (shown: string, stored: int, again: string)
    requires i < 4
    modifies d`regs
    ensures ReadReg(d.regs, Sysfs.REGISTER_OFFSETS[i]) == old(ReadReg(d.regs, Sysfs.REGISTER_OFFSETS[i]))
    ensures shown == again == Sysfs.RegisterText(old(ReadReg(d.regs, Sysfs.REGISTER_OFFSETS[i])))
    ensures stored == 11
  {
    var name := Sysfs.ATTRIBUTE_NAMES[i];
    Sysfs.AttributeOffsets();
    var ret;
    ret, shown := d.ShowRegister(name);
    Sysfs.RegisterTextParses(ReadReg(d.regs, Sysfs.REGISTER_OFFSETS[i]));
    stored := d.StoreRegister(name, shown, |shown|);
    ret, again := d.ShowRegister(name);
  }

  /** Storing "0x1" into the control register attribute and showing it gives "0x00000001\n". */
  method StoreOneShowControl(d: Device) returns (stored: int, shown: string)
    modifies d`regs
    ensures stored == 3 && shown == "0x00000001\n"
    ensures ReadReg(d.regs, ASIC_CONTROL_REG) == 1
  {
    Sysfs.AttributeOffsets();
    assert Sysfs.ATTRIBUTE_NAMES[1] == "04";
    Sysfs.ControlOneText();
    stored := d.StoreRegister("04", "0x1", 3);
    var ret;
    ret, shown := d.ShowRegister("04");
  }
}
