/** Which device compresses a file. */
module SizeRouter {
  import opened Common

  datatype Algorithm = Auto | CpuDeflate | GpuDeflate | GpuGDeflate | CpuZstd | GpuZstd

  datatype Decision = Cpu | Gpu

  datatype SizeRouter = SizeRouter(threshold: nat, algorithm: Algorithm, gpuAvailable: bool) {
    function Route(fileSize: nat): Decision {
      if !gpuAvailable then Cpu
      else if algorithm == CpuDeflate then Cpu
      else if algorithm == GpuDeflate || algorithm == GpuGDeflate then Gpu
      else if fileSize >= threshold then Gpu
      else Cpu
    }
  }

  /** The routing table of the architecture notes, which has no row for `CpuZstd`. */
  function Documented(r: SizeRouter, fileSize: nat): Option<Decision> {
    match r.algorithm
    case Auto => Some(if r.gpuAvailable && fileSize >= r.threshold then Gpu else Cpu)
    case CpuDeflate => Some(Cpu)
    case CpuZstd => None
    case _ => Some(if r.gpuAvailable then Gpu else Cpu)
  }

  /** The code follows the table except for small files under `GpuZstd`, which stay on the CPU. */
  lemma FollowsTableExactly(r: SizeRouter, fileSize: nat)
    requires Documented(r, fileSize).Some?
    ensures r.Route(fileSize) == Documented(r, fileSize).value
            <==> !(r.algorithm == GpuZstd && r.gpuAvailable && fileSize < r.threshold)
  {
  }

  /** The algorithms without a rule of their own, `CpuZstd` included, are routed as `Auto` is. */
  lemma ZstdIsAuto(r: SizeRouter, fileSize: nat)
    requires r.algorithm == CpuZstd || r.algorithm == GpuZstd
    ensures r.Route(fileSize) == r.(algorithm := Auto).Route(fileSize)
    ensures r.Route(fileSize) == Gpu <==> r.gpuAvailable && fileSize >= r.threshold
  {
  }

  /** An empty file under `GpuZstd` with a GPU and the default threshold: the table says GPU, the code CPU. */
  lemma SmallZstdWitness()
    ensures var r := SizeRouter(0x10_0000, GpuZstd, true);
            Documented(r, 0) == Some(Gpu) && r.Route(0) == Cpu
  {
  }
}
