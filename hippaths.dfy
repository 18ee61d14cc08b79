/**
 * Locations inside a chipStar installation, all derived from the HIP
 * root directory (the parent of the directory holding `cucc`). The root is
 * a parameter here; how the driver finds it is not part of this model.
 */
module HipPaths {

  /** `get_hipcc()`: the hipcc executable under the root. */
  function Hipcc(root: string): (r: string)
    ensures |r| == |root| + 10 && root <= r
  {
    root + "/bin/hipcc"
  }

  /** `get_cuda_include_dir()`: chipStar's CUDA headers. */
  function CudaIncludeDir(root: string): (r: string)
    ensures |r| == |root| + 14 && root <= r
  {
    root + "/include/cuspv"
  }

  /** `get_cuda_library_dir()`: chipStar's CUDA libraries. */
  function CudaLibraryDir(root: string): (r: string)
    ensures |r| == |root| + 4 && root <= r
  {
    root + "/lib"
  }

  /** The header force-included into every translation unit. */
  function CudaRuntimeHeader(root: string): (r: string)
    ensures CudaIncludeDir(root) <= r
  {
    CudaIncludeDir(root) + "/cuda_runtime.h"
  }

  /** The character right after the root tells the four locations apart. */
  lemma LocationsDistinct(root: string)
    ensures Hipcc(root) != CudaIncludeDir(root)
    ensures Hipcc(root) != CudaLibraryDir(root)
    ensures CudaIncludeDir(root) != CudaLibraryDir(root)
    ensures CudaRuntimeHeader(root) != CudaIncludeDir(root)
    ensures CudaRuntimeHeader(root) != Hipcc(root)
    ensures CudaRuntimeHeader(root) != CudaLibraryDir(root)
  {
    assert CudaRuntimeHeader(root)[|root| + 1] == 'i';
    assert CudaLibraryDir(root)[|root| + 1] == 'l';
  }

  /** Different roots give different hipcc executables. */
  lemma HipccInjective(root1: string, root2: string)
    requires Hipcc(root1) == Hipcc(root2)
    ensures root1 == root2
  {
  }
}
