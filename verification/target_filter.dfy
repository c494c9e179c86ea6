/** Selection of this ABI for a target triple: architecture, operating system
    and environment. */
module TargetFilter {

  datatype Arch = X86_64 | OtherArch

  datatype OS =
    | IOS | TvOS | WatchOS
    | Darwin | FreeBSD | Linux | MacOSX | NetBSD | Solaris | UnknownOS
    | OtherOS

  datatype Environment = MacABI | Simulator | UnknownEnvironment | OtherEnvironment

  /** The mobile and embedded systems, on which only some environments run
      x86-64 code under this convention (simulators and Mac Catalyst). */
  predicate IsEmbeddedOS(os: OS)
  {
    os == IOS || os == TvOS || os == WatchOS
  }

  /** The desktop and server systems, accepted in every environment. */
  predicate IsDesktopOS(os: OS)
  {
    os in {Darwin, FreeBSD, Linux, MacOSX, NetBSD, Solaris, UnknownOS}
  }

  /** Whether an ABI instance is created for the triple. */
  function CreateInstance(arch: Arch, os: OS, env: Environment): (r: bool)
    ensures r ==> arch == X86_64
    ensures r ==> IsDesktopOS(os) || IsEmbeddedOS(os)
    ensures arch == X86_64 && IsDesktopOS(os) ==> r
    ensures IsEmbeddedOS(os) ==> (r <==> arch == X86_64 && env != OtherEnvironment)
  {
    if arch == X86_64 then
      match os
      case IOS | TvOS | WatchOS =>
        (match env
         case MacABI | Simulator | UnknownEnvironment => true
         case OtherEnvironment => false)
      case Darwin | FreeBSD | Linux | MacOSX | NetBSD | Solaris | UnknownOS => true
      case OtherOS => false
    else false
  }

  /** The environment decides nothing outside the embedded systems. */
  lemma EnvironmentMattersOnlyOnEmbedded(arch: Arch, os: OS, e1: Environment, e2: Environment)
    requires !IsEmbeddedOS(os)
    ensures CreateInstance(arch, os, e1) == CreateInstance(arch, os, e2)
  {
  }
}
