/** The kernel side of the system calls: open files with their positions, and the
    dispatch to the driver's operations. */
module Vfs {
  import opened DeviceSpec
  import opened Positions
  import opened CharDevice

  class Kernel {
    const dev: Device
    var fpos: map<Fd, nat>

    ghost predicate Valid()
      reads this, dev, dev.ring, dev.ring.entry, dev.heap
    {
      dev.Valid()
    }

    ghost function Abs(): Sys
      reads this, dev
    {
      Sys(dev.Abs(), fpos)
    }

    constructor (limit: nat)
      requires 10 * limit < TWO31
      ensures Valid() && Abs() == Init(limit)
      ensures fresh(dev) && fresh(dev.ring) && fresh(dev.ring.entry) && fresh(dev.heap)
    {
      dev := new Device(limit);
      fpos := map[];
    }

    /** The file operations of the driver that write no data. */
    method DispatchQuiet(c: Call, pos: nat) returns (r: Outcome, newPos: nat)
      requires Valid() && !c.Write?
      modifies dev`locked
      ensures Valid()
      ensures (dev.Abs(), r, newPos) == Operate(old(dev.Abs()), pos, c)
    {
      match c
      case Open(_) =>
        r, newPos := Count(0), pos;
      case Read(_, count, fault, interrupted) =>
        r, newPos := dev.Read(pos, count, fault, interrupted);
      case Llseek(_, off, whence, interrupted) =>
        r, newPos := dev.Llseek(pos, off, whence, interrupted);
      case Ioctl(_, seekto, first, garbage, fault, interrupted) =>
        r, newPos := dev.Ioctl(pos, seekto, first, garbage, fault, interrupted);
    }

    /** All the file operations of the driver. */
    method Dispatch(c: Call, pos: nat) returns (r: Outcome, newPos: nat)
      requires Valid()
      modifies dev, dev.ring, dev.ring.entry, dev.heap
      ensures Valid()
      ensures (dev.Abs(), r, newPos) == Operate(old(dev.Abs()), pos, c)
    {
      if c.Write? {
        r, newPos := dev.Write(pos, c.data, c.copied, c.bufOk, c.tempOk, c.interrupted);
      } else {
        r, newPos := DispatchQuiet(c, pos);
      }
    }

    /** One system call: exactly one step of the specification. */
    method Syscall(c: Call) returns (r: Outcome)
      requires Valid()
      modifies this, dev, dev.ring, dev.ring.entry, dev.heap
      ensures Valid()
      ensures (Abs(), r) == Step(old(Abs()), c)
    {
      if c.Open? {
        if c.fd !in fpos {
          fpos := fpos[c.fd := 0];
        }
        return Count(0);
      }
      if c.fd !in fpos {
        return Error(EBADF);
      }
      var pos;
      r, pos := Dispatch(c, fpos[c.fd]);
      fpos := fpos[c.fd := pos];
    }
  }
}
