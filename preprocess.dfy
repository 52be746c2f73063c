/** The fixed morphology chain that turns the horizontal gradient into the mask whose
    contours are searched. Only its parameters are recorded: the operations themselves
    are image-library calls. */
module Preprocess {

  /** A rectangular structuring element, `width` by `height` pixels. */
  datatype Kernel = Kernel(width: nat, height: nat)

  datatype MorphStep = Dilate(k: Kernel) | Erode(k: Kernel)

  /** The 24 by 4 element used for both dilations. */
  const DilateKernel: Kernel := Kernel(24, 4)

  /** The 30 by 9 element used for the erosion that strips thin vertical lines. */
  const ErodeKernel: Kernel := Kernel(30, 9)

  /** Kernel size of the horizontal Sobel derivative applied first. */
  const SobelKernelSize: nat := 3

  /** The morphology steps after Otsu binarisation, in the order they run. */
  const Steps: seq<MorphStep> := [Dilate(DilateKernel), Erode(ErodeKernel), Dilate(DilateKernel)]
}
